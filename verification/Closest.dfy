/** The walk of `FindClosest` (dht/netdb.go:541-613). Scanning a bucket queries its addresses, each
    query moves its address to the front, and the first of these moves shifts the array being
    scanned: the scan therefore reads b0, b2, b3, ..., and the last address twice. */
module Closest {
  import opened Indices
  import opened Recency
  import opened RoutingTable

  // ---------------------------------------------------------------- one scan

  /** The position in an n-element bucket that step `i` of a scan reads. */
  function VisitIndex(n: nat, i: nat): (p: nat)
    requires i < n
    ensures p < n
  {
    if i == 0 then 0 else if i < n - 1 then i + 1 else n - 1
  }

  /** The addresses a scan of bucket `b` queries, in order. */
  function Visits<T>(b: seq<T>): (r: seq<T>)
    ensures |r| == |b|
  {
    seq(|b|, i requires 0 <= i < |b| => b[VisitIndex(|b|, i)])
  }

  lemma VisitsMembers<T>(b: seq<T>, a: T)
    requires a in Visits(b)
    ensures a in b
  {
  }

  /** The bucket after a complete scan. */
  function AfterScan<T(==)>(bound: nat, b: seq<T>): (r: seq<T>)
    requires bound > 0
  {
    TouchAll(bound, b, Visits(b))
  }

  function MoveToFront<T>(s: seq<T>, k: nat): (r: seq<T>)
    requires k < |s|
    ensures |r| == |s|
    ensures forall i :: 0 <= i < |s| ==> r[i] == s[if i == 0 then k else if i <= k then i - 1 else i]
  {
    [s[k]] + (s[..k] + s[k + 1..])
  }

  lemma TouchAt<T>(bound: nat, b: seq<T>, k: nat)
    requires bound > 0 && k < |b| && Distinct(b)
    ensures Touch(bound, b, b[k]) == MoveToFront(b, k)
  {
    FindUnique(b, b[k], k);
  }

  /** The bucket when a scan has queried b[0] and b[2..m]: the latter reversed, then b[0] and b[1], then the rest. */
  function MidScan<T>(b: seq<T>, m: nat): (r: seq<T>)
    requires 2 <= m <= |b|
    ensures |r| == |b|
  {
    seq(|b|, i requires 0 <= i < |b| => b[Origin(m, i)])
  }

  function Origin(m: nat, i: nat): (p: nat)
    requires 2 <= m
    ensures p < m || p == i
  {
    if i < m - 2 then m - 1 - i else if i < m then i - (m - 2) else i
  }

  lemma MidScanDistinct<T>(b: seq<T>, m: nat)
    requires 2 <= m <= |b| && Distinct(b)
    ensures Distinct(MidScan(b, m))
  {
    var s := MidScan(b, m);
    forall i, j | 0 <= i < j < |s| ensures s[i] != s[j] {
      assert Origin(m, i) != Origin(m, j);
    }
  }

  lemma MidScanStep<T>(bound: nat, b: seq<T>, m: nat)
    requires bound > 0 && 2 <= m < |b| && Distinct(b)
    ensures Touch(bound, MidScan(b, m), b[m]) == MidScan(b, m + 1)
  {
    var s := MidScan(b, m);
    MidScanDistinct(b, m);
    assert s[m] == b[m];
    TouchAt(bound, s, m);
    forall i | 0 <= i < |b| ensures MoveToFront(s, m)[i] == MidScan(b, m + 1)[i] {
      assert Origin(m + 1, i) == Origin(m, if i == 0 then m else if i <= m then i - 1 else i);
    }
  }

  lemma MidScanStart<T>(b: seq<T>)
    requires |b| >= 2
    ensures MidScan(b, 2) == b
  {
  }

  lemma {:induction false} ScanPrefix<T>(bound: nat, b: seq<T>, m: nat)
    requires bound > 0 && 2 <= m <= |b| && Distinct(b)
    ensures TouchAll(bound, b, Visits(b)[..m - 1]) == MidScan(b, m)
  {
    if m == 2 {
      ScanStart(bound, b);
    } else {
      ScanPrefix(bound, b, m - 1);
      TouchAllStep(bound, b, Visits(b), m - 2);
      VisitsAt(b, m - 2);
      MidScanStep(bound, b, m - 1);
    }
  }

  lemma ScanStart<T>(bound: nat, b: seq<T>)
    requires bound > 0 && 2 <= |b|
    ensures TouchAll(bound, b, Visits(b)[..1]) == MidScan(b, 2)
  {
    TouchAllStep(bound, b, Visits(b), 0);
    TouchFront(bound, b, b[0]);
    MidScanStart(b);
  }

  lemma TouchAllStep<T>(bound: nat, b: seq<T>, h: seq<T>, m: nat)
    requires bound > 0 && m < |h|
    ensures TouchAll(bound, b, h[..m + 1]) == Touch(bound, TouchAll(bound, b, h[..m]), h[m])
  {
    assert h[..m + 1][..m] == h[..m];
  }

  lemma VisitsAt<T>(b: seq<T>, i: nat)
    requires i < |b|
    ensures Visits(b)[i] == b[VisitIndex(|b|, i)]
  {
  }

  /** A complete scan of three or more addresses reverses all but the first two, which end up last. */
  lemma AfterScanReverses<T>(bound: nat, b: seq<T>)
    requires bound > 0 && |b| >= 3 && Distinct(b)
    ensures |AfterScan(bound, b)| == |b|
    ensures forall i :: 0 <= i < |b| - 2 ==> AfterScan(bound, b)[i] == b[|b| - 1 - i]
    ensures AfterScan(bound, b)[|b| - 2] == b[0] && AfterScan(bound, b)[|b| - 1] == b[1]
  {
    AfterScanIsMidScan(bound, b);
  }

  lemma AfterScanIsMidScan<T>(bound: nat, b: seq<T>)
    requires bound > 0 && |b| >= 3 && Distinct(b)
    ensures AfterScan(bound, b) == MidScan(b, |b|)
  {
    var n, v := |b|, Visits(b);
    ScanPrefix(bound, b, n);
    TouchAllStep(bound, b, v, n - 1);
    assert v[..n] == v;
    VisitsAt(b, n - 1);
    MidScanDistinct(b, n);
    TouchFront(bound, MidScan(b, n), v[n - 1]);
  }

  lemma TouchFront<T>(bound: nat, s: seq<T>, a: T)
    requires bound > 0 && s != [] && s[0] == a
    ensures Touch(bound, s, a) == s
  {
    FindUnique(s, a, 0);
    assert s[..0] + s[1..] == s[1..];
    assert [a] + s[1..] == s;
  }

  // ---------------------------------------------------------------- the walk over the buckets

  /** The queries of scans of a list of buckets, one after the other. */
  function Scans<T>(bs: seq<seq<T>>): (r: seq<T>)
  {
    if bs == [] then [] else Visits(bs[0]) + Scans(bs[1..])
  }

  /** The bucket at distance `d` to the left or to the right of bucket `k`; empty outside the table. */
  function Side<T>(t: seq<seq<T>>, k: nat, d: nat, right: bool): (b: seq<T>)
    requires k < |t|
  {
    if right then (if k + d < |t| then t[k + d] else []) else (if d <= k then t[k - d] else [])
  }

  /** The buckets from distance `d` outwards, the left one of each pair first. */
  function Around<T>(t: seq<seq<T>>, k: nat, d: nat): (bs: seq<seq<T>>)
    requires k < |t|
    decreases |t| - d
  {
    if d > k && k + d >= |t| then [] else [Side(t, k, d, false), Side(t, k, d, true)] + Around(t, k, d + 1)
  }

  /** Everything the walk would query without the limit of 20: the own bucket twice, then outwards. */
  function Walk<T(==)>(bound: nat, t: seq<seq<T>>, k: nat): (r: seq<T>)
    requires bound > 0 && k < |t|
  {
    Visits(t[k]) + Visits(AfterScan(bound, t[k])) + Scans(Around(t, k, 1))
  }

  /** The addresses `FindClosest` answers with when the target belongs to bucket `k`. */
  function ClosestTo<K(==)>(t: Table<K>, k: Index): (r: seq<K>)
    requires |t| == BUCKETS
  {
    First(BUCKET_SIZE, Walk(BUCKET_SIZE, t, k))
  }

  lemma ConcatAssociates<T>(x: seq<T>, y: seq<T>, z: seq<T>)
    ensures x + (y + z) == (x + y) + z
  {
  }

  lemma ScansPair<T>(x: seq<T>, y: seq<T>, bs: seq<seq<T>>)
    ensures Scans([x, y] + bs) == (Visits(x) + Visits(y)) + Scans(bs)
  {
    var ps := [x, y] + bs;
    assert ps[1..] == [y] + bs && ps[1..][1..] == bs;
    ConcatAssociates(Visits(x), Visits(y), Scans(bs));
  }

  // ---------------------------------------------------------------- the walk as the loop makes it

  /** What is still to be scanned when the loop is at distance `d`, before the left or before the right bucket. */
  function Ahead<T(==)>(bound: nat, t: seq<seq<T>>, k: nat, d: nat, right: bool): (r: seq<T>)
    requires bound > 0 && k < |t|
  {
    Visits(Current(bound, t, k, d, right)) +
    (if right then Scans(Around(t, k, d + 1)) else Visits(Current(bound, t, k, d, true)) + Scans(Around(t, k, d + 1)))
  }

  /** The bucket the loop scans at distance `d`; the own bucket, at distance zero, has changed when it is scanned again. */
  function Current<T(==)>(bound: nat, t: seq<seq<T>>, k: nat, d: nat, right: bool): (b: seq<T>)
    requires bound > 0 && k < |t|
  {
    if d == 0 && right then AfterScan(bound, t[k]) else Side(t, k, d, right)
  }

  lemma WalkStart<T>(bound: nat, t: seq<seq<T>>, k: nat)
    requires bound > 0 && k < |t|
    ensures [] + Ahead(bound, t, k, 0, false) == Walk(bound, t, k)
  {
    ConcatAssociates(Visits(t[k]), Visits(AfterScan(bound, t[k])), Scans(Around(t, k, 1)));
  }

  lemma WalkLeft<T>(bound: nat, t: seq<seq<T>>, k: nat, d: nat, walked: seq<T>)
    requires bound > 0 && k < |t|
    ensures walked + Ahead(bound, t, k, d, false) == walked + Visits(Side(t, k, d, false)) + Ahead(bound, t, k, d, true)
  {
    ConcatAssociates(walked, Visits(Side(t, k, d, false)), Ahead(bound, t, k, d, true));
  }

  lemma WalkRight<T>(bound: nat, t: seq<seq<T>>, k: nat, d: nat, walked: seq<T>)
    requires bound > 0 && k < |t|
    ensures walked + Ahead(bound, t, k, d, true) ==
            walked + Visits(Current(bound, t, k, d, true)) + Ahead(bound, t, k, d + 1, false)
  {
    ConcatAssociates(walked, Visits(Current(bound, t, k, d, true)), Scans(Around(t, k, d + 1)));
    AheadIsAround(bound, t, k, d + 1);
  }

  lemma AheadIsAround<T>(bound: nat, t: seq<seq<T>>, k: nat, d: nat)
    requires bound > 0 && k < |t| && d >= 1
    ensures Ahead(bound, t, k, d, false) == Scans(Around(t, k, d))
  {
    var x, y, bs := Side(t, k, d, false), Side(t, k, d, true), Around(t, k, d + 1);
    ConcatAssociates(Visits(x), Visits(y), Scans(bs));
    if d <= k || k + d < |t| { ScansPair(x, y, bs); }
  }

  lemma WalkEnd<T>(bound: nat, t: seq<seq<T>>, k: nat, d: nat, walked: seq<T>)
    requires bound > 0 && k < |t| && d >= 1 && d > k && k + d >= |t|
    ensures walked + Ahead(bound, t, k, d, false) == walked
  {
    AheadIsAround(bound, t, k, d);
  }

  /** Filling the answer scan by scan is the same as cutting the whole walk. */
  lemma FirstConcat<T>(bound: nat, walked: seq<T>, v: seq<T>)
    ensures First(bound, walked) + First(bound - |First(bound, walked)|, v) == First(bound, walked + v)
  {
  }

  // ---------------------------------------------------------------- how many and which addresses it visits

  /** The number of addresses in buckets lo..hi. */
  function Count<T>(t: seq<seq<T>>, lo: nat, hi: nat): (n: nat)
    requires lo <= hi <= |t|
  {
    if lo == hi then 0 else Count(t, lo, hi - 1) + |t[hi - 1]|
  }

  function Size<T>(t: seq<seq<T>>): (n: nat)
  {
    Count(t, 0, |t|)
  }

  lemma {:induction false} CountSplit<T>(t: seq<seq<T>>, lo: nat, mid: nat, hi: nat)
    requires lo <= mid <= hi <= |t|
    ensures Count(t, lo, hi) == Count(t, lo, mid) + Count(t, mid, hi)
  {
    if mid < hi { CountSplit(t, lo, mid, hi - 1); }
  }

  /** The addresses at distance `d` or more to the left of bucket `k`, and to the right. */
  function CountLeft<T>(t: seq<seq<T>>, k: nat, d: nat): (n: nat)
    requires k < |t| && d >= 1
  {
    if d <= k then Count(t, 0, k - d + 1) else 0
  }

  function CountRight<T>(t: seq<seq<T>>, k: nat, d: nat): (n: nat)
    requires k < |t| && d >= 1
  {
    if k + d < |t| then Count(t, k + d, |t|) else 0
  }

  lemma CountLeftStep<T>(t: seq<seq<T>>, k: nat, d: nat)
    requires k < |t| && d >= 1
    ensures CountLeft(t, k, d) == |Side(t, k, d, false)| + CountLeft(t, k, d + 1)
  {
    if d <= k { assert Count(t, 0, k - d + 1) == Count(t, 0, k - d) + |t[k - d]|; }
  }

  lemma CountRightStep<T>(t: seq<seq<T>>, k: nat, d: nat)
    requires k < |t| && d >= 1
    ensures CountRight(t, k, d) == |Side(t, k, d, true)| + CountRight(t, k, d + 1)
  {
    if k + d < |t| {
      CountSplit(t, k + d, k + d + 1, |t|);
      assert Count(t, k + d, k + d + 1) == Count(t, k + d, k + d) + |t[k + d]|;
    }
  }

  lemma {:induction false} AroundLength<T>(t: seq<seq<T>>, k: nat, d: nat)
    requires k < |t| && d >= 1
    ensures |Scans(Around(t, k, d))| == CountLeft(t, k, d) + CountRight(t, k, d)
    decreases |t| - d
  {
    if d <= k || k + d < |t| {
      AroundLength(t, k, d + 1);
      AroundLengthStep(t, k, d);
    }
  }

  lemma AroundLengthStep<T>(t: seq<seq<T>>, k: nat, d: nat)
    requires k < |t| && d >= 1 && (d <= k || k + d < |t|)
    requires |Scans(Around(t, k, d + 1))| == CountLeft(t, k, d + 1) + CountRight(t, k, d + 1)
    ensures |Scans(Around(t, k, d))| == CountLeft(t, k, d) + CountRight(t, k, d)
  {
    AroundStep(t, k, d);
    CountLeftStep(t, k, d);
    CountRightStep(t, k, d);
    ScansPairLength(Side(t, k, d, false), Side(t, k, d, true), Around(t, k, d + 1));
  }

  lemma AroundStep<T>(t: seq<seq<T>>, k: nat, d: nat)
    requires k < |t| && (d <= k || k + d < |t|)
    ensures Around(t, k, d) == [Side(t, k, d, false), Side(t, k, d, true)] + Around(t, k, d + 1)
  {
  }

  lemma ScansPairLength<T>(x: seq<T>, y: seq<T>, bs: seq<seq<T>>)
    ensures |Scans([x, y] + bs)| == |x| + |y| + |Scans(bs)|
  {
    ScansPair(x, y, bs);
  }

  lemma CountAround<T>(t: seq<seq<T>>, k: nat)
    requires k < |t|
    ensures Size(t) == |t[k]| + CountLeft(t, k, 1) + CountRight(t, k, 1)
  {
    CountSplit(t, 0, k, |t|);
    CountSplit(t, k, k + 1, |t|);
  }

  lemma AfterScanPermutes<T>(bound: nat, b: seq<T>)
    requires bound > 0
    ensures multiset(AfterScan(bound, b)) == multiset(b)
    ensures |AfterScan(bound, b)| == |b|
  {
    forall a | a in Visits(b) ensures a in b { VisitsMembers(b, a); }
    TouchAllPermutes(bound, b, Visits(b));
    assert |multiset(AfterScan(bound, b))| == |multiset(b)|;
  }

  lemma {:induction false} TouchAllPermutes<T>(bound: nat, b: seq<T>, h: seq<T>)
    requires bound > 0 && forall a :: a in h ==> a in b
    ensures multiset(TouchAll(bound, b, h)) == multiset(b)
  {
    if h != [] {
      TouchAllPermutes(bound, b, h[..|h| - 1]);
      var s := TouchAll(bound, b, h[..|h| - 1]);
      assert h[|h| - 1] in h;
      assert h[|h| - 1] in multiset(b);
      assert h[|h| - 1] in multiset(s);
      TouchPermutes(bound, s, h[|h| - 1]);
    }
  }

  /** The walk visits every stored address's share: the whole table once and the own bucket once more. */
  lemma WalkLength<T>(bound: nat, t: seq<seq<T>>, k: nat)
    requires bound > 0 && k < |t|
    ensures |Walk(bound, t, k)| == Size(t) + |t[k]|
  {
    AfterScanPermutes(bound, t[k]);
    AroundLength(t, k, 1);
    CountAround(t, k);
  }

  lemma {:induction false} ScansMembers<T>(bs: seq<seq<T>>, a: T) returns (i: nat)
    requires a in Scans(bs)
    ensures i < |bs| && a in bs[i]
  {
    if a in Scans(bs[1..]) {
      i := ScansMembers(bs[1..], a);
      i := i + 1;
    } else {
      VisitsMembers(bs[0], a);
      i := 0;
    }
  }

  lemma {:induction false} AroundMembers<T>(t: seq<seq<T>>, k: nat, d: nat, i: nat) returns (e: nat, right: bool)
    requires k < |t| && i < |Around(t, k, d)|
    ensures e >= d && Around(t, k, d)[i] == Side(t, k, e, right)
    decreases |t| - d
  {
    if i < 2 {
      e, right := d, i == 1;
    } else {
      e, right := AroundMembers(t, k, d + 1, i - 2);
    }
  }

  /** Everything the walk visits was resident when it started. */
  lemma WalkMembers<T>(bound: nat, t: seq<seq<T>>, k: nat, a: T) returns (j: nat)
    requires bound > 0 && k < |t| && a in Walk(bound, t, k)
    ensures j < |t| && a in t[j]
  {
    j := k;
    if a in Scans(Around(t, k, 1)) {
      var i := ScansMembers(Around(t, k, 1), a);
      var e, right := AroundMembers(t, k, 1, i);
      j := if right then k + e else k - e;
    } else if a in Visits(AfterScan(bound, t[k])) {
      VisitsMembers(AfterScan(bound, t[k]), a);
      AfterScanPermutes(bound, t[k]);
      SameMembers(AfterScan(bound, t[k]), t[k], a);
    } else {
      VisitsMembers(t[k], a);
    }
  }

  lemma SameMembers<T>(x: seq<T>, y: seq<T>, a: T)
    requires multiset(x) == multiset(y) && a in x
    ensures a in y
  {
    assert a in multiset(x);
  }

  /** The answer has exactly min(20, size of the table + size of the own bucket) addresses, all resident. */
  lemma ClosestIsResident<K>(home: K -> Index, t: Table<K>, k: Index)
    requires WellFormed(home, t)
    ensures var n := Size(t) + |t[k]|; |ClosestTo(t, k)| == if n <= BUCKET_SIZE then n else BUCKET_SIZE
    ensures forall a :: a in ClosestTo(t, k) ==> Resident(home, t, a)
  {
    WalkLength(BUCKET_SIZE, t, k);
    forall a | a in ClosestTo(t, k) ensures Resident(home, t, a) {
      assert a in Walk(BUCKET_SIZE, t, k);
      var j := WalkMembers(BUCKET_SIZE, t, k, a);
      assert WellFormedBucket(home, t[j], j);
    }
  }

  /** A full bucket answers alone. */
  lemma FullBucketAnswers<K>(t: Table<K>, k: Index)
    requires |t| == BUCKETS && |t[k]| == BUCKET_SIZE
    ensures ClosestTo(t, k) == Visits(t[k])
  {
  }

  // ---------------------------------------------------------------- what the walk misses

  /** The scan of three or more addresses never queries the second one; the scan after it does so only at its end. */
  lemma SecondIsVisitedLast<T>(bound: nat, b: seq<T>, i: nat)
    requires bound > 0 && |b| >= 3 && Distinct(b) && i < |b|
    ensures Visits(b)[i] != b[1]
    ensures |AfterScan(bound, b)| == |b|
    ensures Visits(AfterScan(bound, b))[i] == b[1] <==> i >= |b| - 2
  {
    AfterScanReverses(bound, b);
  }

  lemma TwoScansAt<T>(bound: nat, t: seq<seq<T>>, k: nat, i: nat)
    requires bound > 0 && k < |t| && i < 2 * |t[k]|
    ensures |AfterScan(bound, t[k])| == |t[k]| && |Walk(bound, t, k)| >= 2 * |t[k]|
    ensures Walk(bound, t, k)[i] ==
            if i < |t[k]| then Visits(t[k])[i] else Visits(AfterScan(bound, t[k]))[i - |t[k]|]
  {
    AfterScanPermutes(bound, t[k]);
    ConcatAt(Visits(t[k]), Visits(AfterScan(bound, t[k])), Scans(Around(t, k, 1)), i);
  }

  lemma ConcatAt<T>(x: seq<T>, y: seq<T>, z: seq<T>, i: nat)
    requires i < |x| + |y|
    ensures (x + y + z)[i] == if i < |x| then x[i] else y[i - |x|]
  {
  }

  lemma VisitsAllButSecond<T>(b: seq<T>, p: nat) returns (i: nat)
    requires p < |b| && (p != 1 || |b| == 2)
    ensures i < |b| && Visits(b)[i] == b[p]
  {
    i := if p == 0 then 0 else if |b| == 2 then 1 else p - 1;
  }

  lemma OwnAddressIsAnswered<T>(bound: nat, t: seq<seq<T>>, k: nat, p: nat)
    requires bound > 0 && k < |t| && p < |t[k]| && Distinct(t[k]) && 2 * |t[k]| <= bound
    ensures t[k][p] in First(bound, Walk(bound, t, k))
  {
    var i;
    if p == 1 && |t[k]| >= 3 {
      i := 2 * |t[k]| - 1;
      SecondIsVisitedLast(bound, t[k], |t[k]| - 1);
    } else {
      i := VisitsAllButSecond(t[k], p);
    }
    TwoScansAt(bound, t, k, i);
    FirstHas(bound, Walk(bound, t, k), i);
  }

  lemma FirstHas<T>(bound: nat, s: seq<T>, i: nat)
    requires i < bound && i < |s|
    ensures s[i] in First(bound, s)
  {
    assert First(bound, s)[i] == s[i];
  }

  lemma SecondIsMissed<T>(bound: nat, t: seq<seq<T>>, k: nat, i: nat)
    requires bound > 0 && k < |t| && 3 <= |t[k]| <= bound < 2 * |t[k]| - 1 && Distinct(t[k])
    requires i < |First(bound, Walk(bound, t, k))|
    ensures First(bound, Walk(bound, t, k))[i] != t[k][1]
  {
    TwoScansAt(bound, t, k, i);
    SecondIsVisitedLast(bound, t[k], if i < |t[k]| then i else i - |t[k]|);
  }

  /** The answer has every address of the target's own bucket exactly when that bucket holds at most ten. */
  lemma OwnBucketIsCovered<K>(home: K -> Index, t: Table<K>, k: Index)
    requires WellFormed(home, t)
    ensures (forall a :: a in t[k] ==> a in ClosestTo(t, k)) <==> |t[k]| <= 10
  {
    var b, r := t[k], ClosestTo(t, k);
    assert WellFormedBucket(home, b, k);
    if |b| <= 10 {
      forall a | a in b ensures a in r {
        var p :| 0 <= p < |b| && b[p] == a;
        OwnAddressIsAnswered(BUCKET_SIZE, t, k, p);
      }
    } else {
      forall i | 0 <= i < |r| ensures r[i] != b[1] { SecondIsMissed(BUCKET_SIZE, t, k, i); }
      assert b[1] in b;
    }
  }
}
