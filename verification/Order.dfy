/** In which order, and how completely, `FindClosest` answers (dht/netdb.go:557-613). */
module Ordering {
  import opened Indices
  import opened Recency
  import opened RoutingTable
  import opened Closest
  import opened Repeats

  // ---------------------------------------------------------------- what scans of a list of buckets visit

  lemma {:induction false} ScansConcat<T>(a: seq<seq<T>>, b: seq<seq<T>>)
    ensures Scans(a + b) == Scans(a) + Scans(b)
  {
    if a == [] {
      assert a + b == b;
    } else {
      var c := a + b;
      assert c[0] == a[0] && c[1..] == a[1..] + b;
      ScansConcat(a[1..], b);
      ConcatAssociates(Visits(a[0]), Scans(a[1..]), Scans(b));
    }
  }

  /** A bucket of one or two addresses is visited in full. */
  lemma {:induction false} ScansHave<T>(bs: seq<seq<T>>, i: nat, a: T)
    requires i < |bs| && a in bs[i] && |bs[i]| <= 2
    ensures a in Scans(bs)
  {
    if i == 0 {
      var p :| 0 <= p < |bs[0]| && bs[0][p] == a;
      var v := VisitsAllButSecond(bs[0], p);
    } else {
      ScansHave(bs[1..], i - 1, a);
    }
  }

  /** The second address of a longer bucket is not visited at all. */
  lemma {:induction false} ScansMiss<T>(bs: seq<seq<T>>, i: nat)
    requires Partition(bs) && i < |bs| && |bs[i]| >= 3
    ensures bs[i][1] !in Scans(bs)
  {
    var a := bs[i][1];
    assert a in bs[i];
    if i == 0 {
      NotScanned(bs[1..], a);
      assert forall p :: 0 <= p < |bs[0]| ==> Visits(bs[0])[p] != a;
    } else {
      PartitionTail(bs);
      ScansMiss(bs[1..], i - 1);
      if a in Visits(bs[0]) { VisitsMembers(bs[0], a); }
    }
  }

  lemma PartitionTail<T>(bs: seq<seq<T>>)
    requires Partition(bs) && bs != []
    ensures Partition(bs[1..])
  {
    forall i, j, a | 0 <= i < j < |bs[1..]| && a in bs[1..][i] ensures a !in bs[1..][j] {
      assert a in bs[i + 1];
    }
  }

  /** How many addresses a list of buckets holds. */
  function Total<T>(bs: seq<seq<T>>): (n: nat) {
    if bs == [] then 0 else |bs[0]| + Total(bs[1..])
  }

  lemma {:induction false} ScansLength<T>(bs: seq<seq<T>>)
    ensures |Scans(bs)| == Total(bs)
  {
    if bs != [] { ScansLength(bs[1..]); }
  }

  /** Bucket p of a list is scanned right after those before it. */
  lemma ScansSplit<T>(bs: seq<seq<T>>, p: nat)
    requires p < |bs|
    ensures |Scans(bs[..p])| == Total(bs[..p]) && Total(bs[..p + 1]) == Total(bs[..p]) + |bs[p]|
    ensures Scans(bs[..p]) + Visits(bs[p]) <= Scans(bs)
  {
    var a, b := bs[..p], bs[p + 1..];
    assert bs[..p + 1] == a + [bs[p]] && bs == a + [bs[p]] + b;
    ScansConcat(a + [bs[p]], b);
    ScansConcat(a, [bs[p]]);
    assert Scans([bs[p]]) == Visits(bs[p]);
    ScansLength(a);
    ScansLength(a + [bs[p]]);
  }

  lemma {:induction false} TotalGrows<T>(bs: seq<seq<T>>, p: nat, q: nat)
    requires p < q <= |bs|
    ensures Total(bs[..p]) + |bs[p]| <= Total(bs[..q])
  {
    ScansSplit(bs, q - 1);
    if p < q - 1 { TotalGrows(bs, p, q - 1); }
  }

  /** Which bucket a query of the scans belongs to. */
  lemma {:induction false} ScansAt<T>(bs: seq<seq<T>>, x: nat) returns (p: nat)
    requires x < |Scans(bs)|
    ensures p < |bs| && Total(bs[..p]) <= x < Total(bs[..p]) + |bs[p]|
    ensures Scans(bs)[x] == Visits(bs[p])[x - Total(bs[..p])]
  {
    if x < |bs[0]| {
      p := 0;
    } else {
      var q := ScansAt(bs[1..], x - |bs[0]|);
      p := q + 1;
      assert bs[..p][1..] == bs[1..][..q];
    }
  }

  // ---------------------------------------------------------------- the walk bucket by bucket

  /** The place of bucket i in the walk beyond the own bucket k. */
  function Place(k: nat, i: nat): (p: nat)
    requires i != k
  {
    if i < k then 2 * (k - i - 1) else 2 * (i - k - 1) + 1
  }

  lemma {:induction false} AroundAt<T>(t: seq<seq<T>>, k: nat, d: nat, n: nat)
    requires k < |t| && n < |Around(t, k, d)|
    ensures Around(t, k, d)[n] == Side(t, k, d + n / 2, n % 2 == 1)
    decreases |t| - d
  {
    if n >= 2 {
      AroundAt(t, k, d + 1, n - 2);
      assert d + 1 + (n - 2) / 2 == d + n / 2 && (n - 2) % 2 == n % 2;
    }
  }

  lemma AroundReaches<T>(t: seq<seq<T>>, k: nat, d: nat, i: nat)
    requires k < |t| && i < |t| && d >= 1 && (i <= k - d || i >= k + d)
    ensures Place(k, i) - 2 * (d - 1) < |Around(t, k, d)|
    decreases |t| - d
  {
    AroundStep(t, k, d);
    if i < k - d || i > k + d {
      AroundReaches(t, k, d + 1, i);
    }
  }

  lemma Placed<T>(t: seq<seq<T>>, k: nat, i: nat)
    requires k < |t| && i < |t| && i != k
    ensures Place(k, i) < |Around(t, k, 1)| && Around(t, k, 1)[Place(k, i)] == t[i]
  {
    AroundReaches(t, k, 1, i);
    AroundAt(t, k, 1, Place(k, i));
  }

  lemma Unplaced<T>(t: seq<seq<T>>, k: nat, p: nat) returns (i: nat)
    requires k < |t| && p < |Around(t, k, 1)| && Around(t, k, 1)[p] != []
    ensures i < |t| && i != k && Place(k, i) == p && t[i] == Around(t, k, 1)[p]
  {
    AroundAt(t, k, 1, p);
    i := if p % 2 == 1 then k + 1 + p / 2 else k - 1 - p / 2;
  }

  /** The buckets scanned before bucket j, the own one aside. */
  function Inner<T>(t: seq<seq<T>>, k: nat, j: nat): (bs: seq<seq<T>>)
    requires k < |t| && j < |t| && j != k
    ensures |bs| == Place(k, j) < |Around(t, k, 1)| && bs == Around(t, k, 1)[..Place(k, j)]
  {
    Placed(t, k, j);
    Around(t, k, 1)[..Place(k, j)]
  }

  /** How many queries come before bucket j: the own bucket's twice, and those of the buckets before it. */
  function Start<T>(t: seq<seq<T>>, k: nat, j: nat): (n: nat)
    requires k < |t| && j < |t| && j != k
  {
    2 * |t[k]| + Total(Inner(t, k, j))
  }

  function Own<T(==)>(bound: nat, t: seq<seq<T>>, k: nat): (r: seq<T>)
    requires bound > 0 && k < |t|
  {
    Visits(t[k]) + Visits(AfterScan(bound, t[k]))
  }

  /** What the walk queries before bucket j. */
  function Prior<T(==)>(bound: nat, t: seq<seq<T>>, k: nat, j: nat): (r: seq<T>)
    requires bound > 0 && k < |t| && j < |t| && j != k
  {
    Own(bound, t, k) + Scans(Inner(t, k, j))
  }

  lemma PriorLength<T>(bound: nat, t: seq<seq<T>>, k: nat, j: nat)
    requires bound > 0 && k < |t| && j < |t| && j != k
    ensures |Own(bound, t, k)| == 2 * |t[k]| && |Prior(bound, t, k, j)| == Start(t, k, j)
  {
    AfterScanPermutes(bound, t[k]);
    ScansLength(Inner(t, k, j));
  }

  lemma PrefixOfSum<T>(o: seq<T>, p: seq<T>, v: seq<T>, s: seq<T>)
    requires p + v <= s
    ensures o + p + v <= o + s
  {
    assert o + p + v == o + (p + v);
  }

  lemma WalkSplits<T>(bound: nat, t: seq<seq<T>>, k: nat, j: nat)
    requires bound > 0 && k < |t| && j < |t| && j != k
    ensures Prior(bound, t, k, j) + Visits(t[j]) <= Walk(bound, t, k)
  {
    Placed(t, k, j);
    ScansSplit(Around(t, k, 1), Place(k, j));
    PrefixOfSum(Own(bound, t, k), Scans(Inner(t, k, j)), Visits(t[j]), Scans(Around(t, k, 1)));
  }

  // ---------------------------------------------------------------- members of the part before a bucket

  lemma {:induction false} PartitionPrefix<T>(bs: seq<seq<T>>, n: nat)
    requires Partition(bs) && n <= |bs|
    ensures Partition(bs[..n])
  {
    var a := bs[..n];
    assert forall i :: 0 <= i < |a| ==> a[i] == bs[i];
    forall i, j, x | 0 <= i < j < |a| && x in a[i] ensures x !in a[j] {
      assert x in bs[i];
    }
  }

  /** A query of the own bucket is one of its addresses. */
  lemma OwnMembers<T>(bound: nat, t: seq<seq<T>>, k: nat, a: T)
    requires bound > 0 && k < |t| && a in Own(bound, t, k)
    ensures a in t[k]
  {
    if a in Visits(t[k]) {
      VisitsMembers(t[k], a);
    } else {
      VisitsMembers(AfterScan(bound, t[k]), a);
      AfterScanPermutes(bound, t[k]);
      SameMembers(AfterScan(bound, t[k]), t[k], a);
    }
  }

  /** Of other buckets, only those placed before j are queried before j. */
  lemma PriorIsEarlier<T>(bound: nat, t: seq<seq<T>>, k: nat, j: nat, a: T, i: nat)
    requires bound > 0 && k < |t| && j < |t| && j != k && Partition(t) && i < |t| && i != k
    requires a in t[i] && a in Prior(bound, t, k, j)
    ensures Place(k, i) < Place(k, j)
  {
    if a in Own(bound, t, k) {
      OwnMembers(bound, t, k, a);
      assert false;
    }
    var n := ScansMembers(Inner(t, k, j), a);
    var m := Unplaced(t, k, n);
    assert a in t[m];
  }

  /** Short buckets placed before j are queried in full before it; longer ones never are. */
  lemma PriorCovers<T>(bound: nat, t: seq<seq<T>>, k: nat, j: nat, i: nat)
    requires bound > 0 && k < |t| && i < |t| && j < |t| && i != k && j != k && Partition(t)
    requires Place(k, i) < Place(k, j)
    ensures (forall a :: a in t[i] ==> a in Prior(bound, t, k, j)) <==> |t[i]| <= 2
  {
    var bs := Inner(t, k, j);
    Placed(t, k, i);
    var n := Place(k, i);
    assert bs[n] == t[i];
    if |t[i]| <= 2 {
      forall a | a in t[i] ensures a in Prior(bound, t, k, j) {
        ScansHave(bs, n, a);
      }
    } else {
      AroundIsPartition(t, k, 1);
      PartitionPrefix(Around(t, k, 1), Place(k, j));
      ScansMiss(bs, n);
      assert t[i][1] in t[i];
      if t[i][1] in Own(bound, t, k) { OwnMembers(bound, t, k, t[i][1]); }
    }
  }

  /** Every address of the own bucket is queried before anything else. */
  lemma OwnCovers<T>(bound: nat, t: seq<seq<T>>, k: nat, a: T)
    requires bound > 0 && k < |t| && Distinct(t[k]) && a in t[k]
    ensures a in Own(bound, t, k)
  {
    var b := t[k];
    var p :| 0 <= p < |b| && b[p] == a;
    if p == 1 && |b| >= 3 {
      SecondIsVisitedLast(bound, b, |b| - 1);
      assert Visits(AfterScan(bound, b))[|b| - 1] == a;
    } else {
      var v := VisitsAllButSecond(b, p);
      assert Visits(b)[v] == a;
    }
  }

  // ---------------------------------------------------------------- nearer buckets first

  /** By the bits of the target's distance, everything in bucket i is nearer to the target than anything in bucket
      j. This puts all buckets in order. */
  predicate Nearer(bits: nat -> bool, i: nat, j: nat) {
    if i < j then bits(i) else j < i && !bits(j)
  }

  /** The bits of the distance of a target in bucket k. */
  ghost predicate Aimed(bits: nat -> bool, k: nat, n: nat) {
    (forall i :: 0 <= i < k ==> !bits(i)) && (k < n - 1 ==> bits(k))
  }

  /** Nothing is answered before, or instead of, an address from a nearer bucket. */
  ghost predicate NearestFirst<T>(t: seq<seq<T>>, bits: nat -> bool, h: seq<T>) {
    forall p, i, j, a :: 0 <= p < |h| && 0 <= i < |t| && 0 <= j < |t| && Nearer(bits, i, j) && h[p] in t[j] && a in t[i] ==>
      a in h[..p]
  }

  /** Some address of bucket j is answered. */
  ghost predicate Reached<T>(bound: nat, t: seq<seq<T>>, k: nat, j: nat)
    requires k < |t|
  {
    j < |t| && j != k && t[j] != [] && Start(t, k, j) < bound
  }

  /** Buckets other than the own one that are nearer than a reached one come before it in the walk, and hold at
      most two addresses. */
  ghost predicate SizesAllow<T>(bound: nat, t: seq<seq<T>>, k: nat, bits: nat -> bool)
    requires k < |t|
  {
    forall j :: Reached(bound, t, k, j) ==> ReachedWell(t, k, bits, j)
  }

  ghost predicate ReachedWell<T>(t: seq<seq<T>>, k: nat, bits: nat -> bool, j: nat)
    requires k < |t| && j < |t| && j != k
  {
    forall i :: 0 <= i < |t| && i != k && t[i] != [] && Nearer(bits, i, j) ==> Place(k, i) < Place(k, j) && |t[i]| <= 2
  }

  /** The answer up to the first query of bucket j, if it gets there. */
  lemma AnswerReaches<T>(bound: nat, t: seq<seq<T>>, k: nat, j: nat)
    requires bound > 0 && k < |t| && j < |t| && j != k
    ensures var h, n := First(bound, Walk(bound, t, k)), Start(t, k, j);
            && (n < bound && t[j] != [] ==> n < |h| && h[n] == t[j][0])
            && (n <= bound ==> n <= |h| && h[..n] == Prior(bound, t, k, j))
            && (n > bound ==> h <= Prior(bound, t, k, j))
  {
    PriorLength(bound, t, k, j);
    WalkSplits(bound, t, k, j);
    var w, n := Walk(bound, t, k), Start(t, k, j);
    var c := Prior(bound, t, k, j) + Visits(t[j]);
    assert w[..|c|] == c && c[..n] == Prior(bound, t, k, j);
    assert w[..n] == c[..n];
    if t[j] != [] {
      assert c[n] == Visits(t[j])[0] == t[j][0];
    }
  }

  lemma NeedsSizes<T>(bound: nat, t: seq<seq<T>>, k: nat, bits: nat -> bool, j: nat)
    requires bound > 0 && k < |t| && Partition(t) && Reached(bound, t, k, j)
    requires NearestFirst(t, bits, First(bound, Walk(bound, t, k)))
    ensures ReachedWell(t, k, bits, j)
  {
    var h, n := First(bound, Walk(bound, t, k)), Start(t, k, j);
    AnswerReaches(bound, t, k, j);
    assert h[n] in t[j];
    forall i | 0 <= i < |t| && i != k && t[i] != [] && Nearer(bits, i, j) ensures Place(k, i) < Place(k, j) && |t[i]| <= 2 {
      forall a | a in t[i] ensures a in Prior(bound, t, k, j) {
        assert a in h[..n];
      }
      PriorIsEarlier(bound, t, k, j, t[i][0], i);
      PriorCovers(bound, t, k, j, i);
    }
  }

  /** An answered address of bucket j comes after everything queried before j. */
  lemma AnsweredAfter<T>(bound: nat, t: seq<seq<T>>, k: nat, j: nat, p: nat)
    requires bound > 0 && k < |t| && j < |t| && j != k && Partition(t)
    requires var h := First(bound, Walk(bound, t, k)); p < |h| && h[p] in t[j]
    ensures Start(t, k, j) <= p && Reached(bound, t, k, j)
  {
    var h, n := First(bound, Walk(bound, t, k)), Start(t, k, j);
    AnswerReaches(bound, t, k, j);
    if p < n || n > bound {
      assert h[p] in Prior(bound, t, k, j) by {
        if n <= bound { assert h[p] == h[..n][p]; }
      }
      PriorIsEarlier(bound, t, k, j, h[p], j);
    }
  }

  /** An answered address of another bucket comes after all of the own one. */
  lemma OwnComesFirst<T>(bound: nat, t: seq<seq<T>>, k: nat, i: nat, p: nat, a: T)
    requires bound > 0 && k < |t| && i < |t| && i != k && Partition(t) && a in t[k]
    requires var h := First(bound, Walk(bound, t, k)); p < |h| && h[p] in t[i]
    ensures a in First(bound, Walk(bound, t, k))[..p]
  {
    var o, w := Own(bound, t, k), Walk(bound, t, k);
    assert w[..|o|] == o;
    if p < |o| {
      assert w[p] == o[p];
      OwnMembers(bound, t, k, w[p]);
      assert false;
    }
    OwnCovers(bound, t, k, a);
    var v :| 0 <= v < |o| && o[v] == a;
    assert First(bound, w)[..p][v] == a;
  }

  lemma SizesSuffice<T>(bound: nat, t: seq<seq<T>>, k: nat, bits: nat -> bool, p: nat, i: nat, j: nat, a: T)
    requires bound > 0 && k < |t| && i < |t| && j < |t| && j != k && Partition(t) && SizesAllow(bound, t, k, bits)
    requires Nearer(bits, i, j) && a in t[i]
    requires var h := First(bound, Walk(bound, t, k)); p < |h| && h[p] in t[j]
    ensures a in First(bound, Walk(bound, t, k))[..p]
  {
    if i == k {
      OwnComesFirst(bound, t, k, j, p, a);
    } else {
      var h, n := First(bound, Walk(bound, t, k)), Start(t, k, j);
      AnsweredAfter(bound, t, k, j, p);
      AnswerReaches(bound, t, k, j);
      assert ReachedWell(t, k, bits, j);
      PriorCovers(bound, t, k, j, i);
      assert a in h[..n];
      var v :| 0 <= v < n && h[..n][v] == a;
      assert h[..p][v] == a;
    }
  }

  /** Answers come nearest bucket first, with none left out in favour of a farther one, exactly when the sizes
      of the buckets allow it. */
  lemma NearestFirstExactly<K>(home: K -> Index, t: Table<K>, k: Index, bits: nat -> bool)
    requires WellFormed(home, t) && Aimed(bits, k, BUCKETS)
    ensures NearestFirst(t, bits, ClosestTo(t, k)) <==> SizesAllow(BUCKET_SIZE, t, k, bits)
  {
    WellFormedPartition(home, t);
    var h := ClosestTo(t, k);
    if NearestFirst(t, bits, h) {
      forall j | Reached(BUCKET_SIZE, t, k, j) ensures ReachedWell(t, k, bits, j) {
        NeedsSizes(BUCKET_SIZE, t, k, bits, j);
      }
    }
    if SizesAllow(BUCKET_SIZE, t, k, bits) {
      forall p, i, j, a | 0 <= p < |h| && 0 <= i < |t| && 0 <= j < |t| && Nearer(bits, i, j) && h[p] in t[j] && a in t[i]
        ensures a in h[..p]
      {
        SizesSuffice(BUCKET_SIZE, t, k, bits, p, i, j, a);
      }
    }
  }

  // ---------------------------------------------------------------- when everything is answered

  /** Of the other buckets, the walk visits all addresses of short ones, and not the second of longer ones. */
  lemma WalkCovers<T>(bound: nat, t: seq<seq<T>>, k: nat, i: nat)
    requires bound > 0 && k < |t| && i < |t| && i != k && Partition(t)
    ensures (forall a :: a in t[i] ==> a in Walk(bound, t, k)) <==> |t[i]| <= 2
  {
    var bs := Around(t, k, 1);
    var n := Place(k, i);
    Placed(t, k, i);
    if |t[i]| <= 2 {
      forall a | a in t[i] ensures a in Walk(bound, t, k) { ScansHave(bs, n, a); }
    } else {
      AroundIsPartition(t, k, 1);
      ScansMiss(bs, n);
      assert t[i][1] in t[i];
      if t[i][1] in Own(bound, t, k) { OwnMembers(bound, t, k, t[i][1]); }
    }
  }

  lemma {:induction false} ShortIsClean<T>(bs: seq<seq<T>>, limit: nat)
    requires forall i :: 0 <= i < |bs| ==> |bs[i]| <= 2
    ensures Clean(bs, limit)
  {
    if bs != [] && limit >= |bs[0]| {
      ShortIsClean(bs[1..], limit - |bs[0]|);
    }
  }

  /** When no other bucket is long, the scans beyond the own bucket repeat nothing. */
  lemma ScansAreDistinct<T>(t: seq<seq<T>>, k: nat)
    requires k < |t| && Partition(t) && forall i :: 0 <= i < |t| && i != k ==> |t[i]| <= 2
    ensures Distinct(Scans(Around(t, k, 1)))
  {
    var bs := Around(t, k, 1);
    forall n | 0 <= n < |bs| ensures |bs[n]| <= 2 {
      var e, right := AroundMembers(t, k, 1, n);
    }
    AroundIsPartition(t, k, 1);
    ShortIsClean(bs, |Scans(bs)|);
    CleanIsDistinct(bs, |Scans(bs)|);
    assert First(|Scans(bs)|, Scans(bs)) == Scans(bs);
  }

  /** What the limit cuts off is missing from the answer. */
  lemma CutOffIsMissing<T>(bound: nat, t: seq<seq<T>>, k: nat)
    requires bound > 0 && k < |t| && Partition(t) && 2 * |t[k]| <= bound < |Walk(bound, t, k)|
    requires forall i :: 0 <= i < |t| && i != k ==> |t[i]| <= 2
    ensures Walk(bound, t, k)[bound] !in First(bound, Walk(bound, t, k))
  {
    var o, r, w := Own(bound, t, k), Scans(Around(t, k, 1)), Walk(bound, t, k);
    AfterScanPermutes(bound, t[k]);
    ScansAreDistinct(t, k);
    var x := w[bound];
    assert x == r[bound - |o|];
    forall p | 0 <= p < bound ensures w[p] != x {
      if p < |o| {
        assert w[p] == o[p];
        OwnMembers(bound, t, k, o[p]);
        var n := ScansMembers(Around(t, k, 1), x);
        var e, right := AroundMembers(t, k, 1, n);
      } else {
        assert w[p] == r[p - |o|];
      }
    }
  }

  /** The answer has every address of the table exactly when all of it, and the own bucket once more, fits,
      and no other bucket holds more than two. */
  lemma AllAnsweredExactly<K>(home: K -> Index, t: Table<K>, k: Index)
    requires WellFormed(home, t)
    ensures (forall i, a :: 0 <= i < BUCKETS && a in t[i] ==> a in ClosestTo(t, k)) <==>
            Size(t) + |t[k]| <= BUCKET_SIZE && forall i :: 0 <= i < BUCKETS && i != k ==> |t[i]| <= 2
  {
    WellFormedPartition(home, t);
    WalkLength(BUCKET_SIZE, t, k);
    OwnBucketIsCovered(home, t, k);
    var h, w := ClosestTo(t, k), Walk(BUCKET_SIZE, t, k);
    if forall i, a :: 0 <= i < BUCKETS && a in t[i] ==> a in h {
      forall i | 0 <= i < BUCKETS && i != k ensures |t[i]| <= 2 {
        forall a | a in t[i] ensures a in w { assert a in h; }
        WalkCovers(BUCKET_SIZE, t, k, i);
      }
      if |w| > BUCKET_SIZE {
        var j := WalkMembers(BUCKET_SIZE, t, k, w[BUCKET_SIZE]);
        CutOffIsMissing(BUCKET_SIZE, t, k);
      }
    }
    if Size(t) + |t[k]| <= BUCKET_SIZE && forall i :: 0 <= i < BUCKETS && i != k ==> |t[i]| <= 2 {
      OwnPart(t, k);
      forall i, a | 0 <= i < BUCKETS && a in t[i] ensures a in h {
        if i != k { WalkCovers(BUCKET_SIZE, t, k, i); }
      }
    }
  }

  lemma OwnPart<T>(t: seq<seq<T>>, k: nat)
    requires k < |t|
    ensures |t[k]| <= Size(t)
  {
    CountAround(t, k);
  }

  // ---------------------------------------------------------------- a bucket that hides the others

  /** A full bucket with nothing before it in the walk is answered, and nothing else. */
  lemma FullBucketHides<T>(bound: nat, t: seq<seq<T>>, k: nat, j: nat)
    requires bound > 0 && k < |t| && j < |t| && j != k && Start(t, k, j) == 0 && |t[j]| == bound
    ensures First(bound, Walk(bound, t, k)) == Visits(t[j])
  {
    WalkSplits(bound, t, k, j);
    PriorLength(bound, t, k, j);
    var w, v := Walk(bound, t, k), Visits(t[j]);
    assert Prior(bound, t, k, j) + v == v;
    assert w[..bound] == v;
  }
}
