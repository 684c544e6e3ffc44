/** When the answer of `FindClosest` repeats an address (dht/netdb.go:557-613). */
module Repeats {
  import opened Indices
  import opened Recency
  import opened RoutingTable
  import opened Closest

  // ---------------------------------------------------------------- scanning a list of buckets

  /** No bucket of three or more addresses is scanned to its end within the first `limit` queries. */
  predicate Clean<T>(bs: seq<seq<T>>, limit: nat)
  {
    bs == [] || limit < |bs[0]| || (|bs[0]| < 3 && Clean(bs[1..], limit - |bs[0]|))
  }

  /** No address is stored twice. */
  ghost predicate Partition<T>(bs: seq<seq<T>>) {
    && (forall i :: 0 <= i < |bs| ==> Distinct(bs[i]))
    && (forall i, j, a :: 0 <= i < j < |bs| && a in bs[i] ==> a !in bs[j])
  }

  lemma VisitsRepeat<T>(b: seq<T>, m: nat)
    requires Distinct(b) && m <= |b|
    ensures Distinct(Visits(b)[..m]) <==> m < |b| || |b| < 3
  {
    if |b| >= 3 && m == |b| {
      var v := Visits(b)[..m];
      assert v[m - 2] == v[m - 1];
    }
  }

  lemma DistinctConcat<T>(p: seq<T>, q: seq<T>)
    requires forall a :: a in p ==> a !in q
    ensures Distinct(p + q) <==> Distinct(p) && Distinct(q)
  {
    var s := p + q;
    if Distinct(s) {
      forall i, j | 0 <= i < j < |p| ensures p[i] != p[j] { assert s[i] != s[j]; }
      forall i, j | 0 <= i < j < |q| ensures q[i] != q[j] { assert s[|p| + i] != s[|p| + j]; }
    } else if Distinct(p) && Distinct(q) {
      forall i, j | 0 <= i < j < |s| ensures s[i] != s[j] {
        if i < |p| <= j { assert p[i] in p && q[j - |p|] in q; }
      }
    }
  }

  lemma DistinctAfterScan<T>(b: seq<T>, rest: seq<T>, limit: nat)
    requires Distinct(b)
    requires forall a :: a in b ==> a !in rest
    ensures Distinct(First(limit, Visits(b) + rest)) <==>
            limit < |b| || (|b| < 3 && Distinct(First(limit - |b|, rest)))
  {
    var v := Visits(b);
    if limit < |b| {
      assert First(limit, v + rest) == v[..limit];
      VisitsRepeat(b, limit);
    } else {
      var f := First(limit - |b|, rest);
      assert First(limit, v + rest) == v + f;
      assert v[..|b|] == v;
      VisitsRepeat(b, |b|);
      forall a | a in v ensures a !in f { VisitsMembers(b, a); }
      DistinctConcat(v, f);
    }
  }

  lemma {:induction false} NotScanned<T>(bs: seq<seq<T>>, a: T)
    requires forall i :: 0 <= i < |bs| ==> a !in bs[i]
    ensures a !in Scans(bs)
  {
    if bs != [] {
      NotScanned(bs[1..], a);
      if a in Visits(bs[0]) { VisitsMembers(bs[0], a); }
    }
  }

  lemma {:induction false} CleanIsDistinct<T>(bs: seq<seq<T>>, limit: nat)
    requires Partition(bs)
    ensures Distinct(First(limit, Scans(bs))) <==> Clean(bs, limit)
  {
    if bs != [] {
      forall a | a in bs[0] ensures a !in Scans(bs[1..]) { NotScanned(bs[1..], a); }
      DistinctAfterScan(bs[0], Scans(bs[1..]), limit);
      if limit >= |bs[0]| { CleanIsDistinct(bs[1..], limit - |bs[0]|); }
    }
  }

  lemma SidesAreDisjoint<T>(t: seq<seq<T>>, k: nat, d: nat, right: bool, e: nat, right': bool, a: T)
    requires Partition(t) && k < |t| && d >= 1 && e >= 1 && (d, right) != (e, right')
    requires a in Side(t, k, d, right)
    ensures a !in Side(t, k, e, right')
  {
  }

  lemma {:induction false} AroundIsPartition<T>(t: seq<seq<T>>, k: nat, d: nat)
    requires Partition(t) && k < |t| && d >= 1
    ensures Partition(Around(t, k, d))
    decreases |t| - d
  {
    if d <= k || k + d < |t| {
      AroundIsPartition(t, k, d + 1);
      var bs := Around(t, k, d);
      forall i, j, a | 0 <= i < j < |bs| && a in bs[i] ensures a !in bs[j] {
        if i < 2 {
          var e, right := AroundMembers(t, k, d, j);
          if j >= 2 { e, right := AroundMembers(t, k, d + 1, j - 2); }
          SidesAreDisjoint(t, k, d, i == 1, e, right, a);
        }
      }
    }
  }

  /** Scanning the own bucket twice repeats an address as soon as the bucket holds one. */
  lemma OwnBucketRepeats<T>(bound: nat, t: seq<seq<T>>, k: nat)
    requires bound >= 4 && k < |t| && 0 < |t[k]| <= bound && Distinct(t[k])
    ensures !Distinct(First(bound, Walk(bound, t, k)))
  {
    if |t[k]| >= 3 { LongBucketRepeats(bound, t, k); } else { ShortBucketRepeats(bound, t, k); }
  }

  lemma LongBucketRepeats<T>(bound: nat, t: seq<seq<T>>, k: nat)
    requires bound > 0 && k < |t| && 3 <= |t[k]| <= bound
    ensures !Distinct(First(bound, Walk(bound, t, k)))
  {
    var n, r := |t[k]|, First(bound, Walk(bound, t, k));
    TwoScansAt(bound, t, k, n - 2);
    TwoScansAt(bound, t, k, n - 1);
    assert r[n - 2] == r[n - 1];
  }

  lemma ShortBucketRepeats<T>(bound: nat, t: seq<seq<T>>, k: nat)
    requires bound >= 4 && k < |t| && 1 <= |t[k]| <= 2
    ensures !Distinct(First(bound, Walk(bound, t, k)))
  {
    var n, r := |t[k]|, First(bound, Walk(bound, t, k));
    TwoScansAt(bound, t, k, n - 1);
    TwoScansAt(bound, t, k, n);
    FrontAfterShortScan(bound, t[k]);
    assert r[n - 1] == r[n];
  }

  lemma FrontAfterShortScan<T>(bound: nat, b: seq<T>)
    requires bound > 0 && 1 <= |b| <= 2
    ensures AfterScan(bound, b) != [] && AfterScan(bound, b)[0] == b[|b| - 1]
  {
    assert Visits(b)[|b| - 1] == b[|b| - 1];
  }

  lemma WellFormedPartition<K>(home: K -> Index, t: Table<K>)
    requires WellFormed(home, t)
    ensures Partition(t)
  {
    forall i | 0 <= i < |t| ensures Distinct(t[i]) { assert WellFormedBucket(home, t[i], i); }
    forall i, j, a | 0 <= i < j < |t| && a in t[i] ensures a !in t[j] {
      assert WellFormedBucket(home, t[i], i) && WellFormedBucket(home, t[j], j);
    }
  }

  /** The answer is free of repeats exactly when the own bucket is empty and no bucket of three or
      more addresses is scanned to its end. */
  lemma AnswerRepeats<K>(home: K -> Index, t: Table<K>, k: Index)
    requires WellFormed(home, t)
    ensures Distinct(ClosestTo(t, k)) <==> t[k] == [] && Clean(Around(t, k, 1), BUCKET_SIZE)
  {
    assert WellFormedBucket(home, t[k], k);
    if t[k] != [] {
      OwnBucketRepeats(BUCKET_SIZE, t, k);
    } else {
      assert Walk(BUCKET_SIZE, t, k) == Scans(Around(t, k, 1));
      WellFormedPartition(home, t);
      AroundIsPartition(t, k, 1);
      CleanIsDistinct(Around(t, k, 1), BUCKET_SIZE);
    }
  }
}
