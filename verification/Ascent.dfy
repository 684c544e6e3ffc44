/** When `FindClosest` answers in ascending distance to its target (dht/netdb.go:557-613). */
module Ascent {
  import opened Indices
  import opened Recency
  import opened RoutingTable
  import opened Closest
  import opened Ordering

  ghost predicate Ascending<T>(d: T -> int, h: seq<T>) {
    forall i, j :: 0 <= i < j < |h| ==> d(h[i]) <= d(h[j])
  }

  /** Different addresses of a bucket have different distances. */
  ghost predicate Separates<T>(d: T -> int, b: seq<T>) {
    forall x, y :: x in b && y in b && d(x) == d(y) ==> x == y
  }

  lemma AscendingConcat<T>(d: T -> int, x: seq<T>, y: seq<T>)
    requires forall a, b :: a in x && b in y ==> d(a) <= d(b)
    ensures Ascending(d, x + y) <==> Ascending(d, x) && Ascending(d, y)
  {
    var s := x + y;
    assert forall i :: 0 <= i < |x| ==> s[i] == x[i];
    assert forall i :: 0 <= i < |y| ==> s[|x| + i] == y[i];
    if Ascending(d, x) && Ascending(d, y) {
      forall i, j | 0 <= i < j < |s| ensures d(s[i]) <= d(s[j]) {
        if i < |x| <= j { assert s[i] in x && s[j] in y; }
      }
    }
    if Ascending(d, s) {
      forall i, j | 0 <= i < j < |y| ensures d(y[i]) <= d(y[j]) { assert d(s[|x| + i]) <= d(s[|x| + j]); }
    }
  }

  lemma TwoTurn<T>(bound: nat, b: seq<T>)
    requires bound > 0 && |b| == 2 && b[0] != b[1]
    ensures AfterScan(bound, b) == [b[1], b[0]]
  {
    var v := Visits(b);
    assert v == b && v[..1] == [b[0]] && v[..0] == [];
    assert TouchAll(bound, b, []) == b;
    assert TouchAll(bound, b, v[..1]) == [b[0]] + Remove(b, b[0]);
    assert Remove(b, b[0]) == [b[1]];
    assert [b[0]] + [b[1]] == b;
    assert Find(b, b[1]) == 1;
    assert Remove(b, b[1]) == [b[0]];
  }

  /** A sequence that comes back to an element after another one is not ascending. */
  lemma ReturnDescends<T>(d: T -> int, h: seq<T>, i: nat, j: nat, k: nat)
    requires i < j < k < |h| && h[i] == h[k] && d(h[i]) != d(h[j])
    ensures !Ascending(d, h)
  {
    assert d(h[i]) > d(h[j]) || d(h[j]) > d(h[k]);
  }

  /** The second scan of two, or of four or more, addresses comes back to one that was passed. */
  lemma SecondScanReturns<T>(bound: nat, b: seq<T>) returns (i: nat)
    requires bound > 0 && Distinct(b) && (|b| == 2 || 4 <= |b|)
    ensures i < |b| - 1 && |AfterScan(bound, b)| == |b|
    ensures Visits(b)[i] == Visits(AfterScan(bound, b))[1] != Visits(b)[|b| - 1]
  {
    var n := |b|;
    if n == 2 {
      TwoTurn(bound, b);
      i := 0;
    } else {
      AfterScanReverses(bound, b);
      i := n - 4;
    }
  }

  /** With two, or four to bound - 2, addresses in the own bucket no answer is in ascending distance, whatever the
      distances are. */
  lemma NeverAscending<T>(bound: nat, t: seq<seq<T>>, k: nat, d: T -> int)
    requires bound >= 4 && k < |t| && Distinct(t[k]) && Separates(d, t[k])
    requires |t[k]| == 2 || 4 <= |t[k]| <= bound - 2
    ensures !Ascending(d, First(bound, Walk(bound, t, k)))
  {
    var b, n, h := t[k], |t[k]|, First(bound, Walk(bound, t, k));
    var i := SecondScanReturns(bound, b);
    TwoScansAt(bound, t, k, i);
    TwoScansAt(bound, t, k, n - 1);
    TwoScansAt(bound, t, k, n + 1);
    VisitsMembers(b, Visits(b)[i]);
    VisitsMembers(b, Visits(b)[n - 1]);
    ReturnDescends(d, h, i, n - 1, n + 1);
  }

  /** Which addresses of the own bucket must be in ascending distance. */
  ghost predicate OwnAscends<T>(bound: nat, d: T -> int, b: seq<T>) {
    || |b| <= 1
    || (|b| == 3 && d(b[0]) <= d(b[2]) <= d(b[1]))
    || (|b| >= bound - 1 && Ascending(d, Visits(b)))
  }

  /** What is left of a limit after the own bucket has been scanned twice. */
  function Left(bound: nat, n: nat): nat {
    if 2 * n <= bound then bound - 2 * n else 0
  }

  lemma AnswerParts<T>(bound: nat, t: seq<seq<T>>, k: nat)
    requires bound > 0 && k < |t|
    ensures First(bound, Walk(bound, t, k)) == First(bound, Own(bound, t, k)) + First(Left(bound, |t[k]|), Scans(Around(t, k, 1)))
    ensures |Own(bound, t, k)| == 2 * |t[k]|
  {
    AfterScanPermutes(bound, t[k]);
    FirstConcat(bound, Own(bound, t, k), Scans(Around(t, k, 1)));
  }

  lemma OwnOfThree<T>(bound: nat, t: seq<seq<T>>, k: nat, d: T -> int)
    requires bound >= 6 && k < |t| && |t[k]| == 3 && Distinct(t[k])
    ensures Ascending(d, First(bound, Own(bound, t, k))) <==> OwnAscends(bound, d, t[k])
  {
    var b := t[k];
    AfterScanReverses(bound, b);
    assert Own(bound, t, k) == [b[0], b[2], b[2], b[2], b[1], b[1]];
    var o := [b[0], b[2], b[2], b[2], b[1], b[1]];
    if Ascending(d, o) {
      assert d(o[0]) <= d(o[1]) && d(o[1]) <= d(o[4]);
    }
  }

  lemma OwnOfMany<T>(bound: nat, t: seq<seq<T>>, k: nat, d: T -> int)
    requires bound >= 6 && k < |t| && bound - 1 <= |t[k]| <= bound && Distinct(t[k])
    ensures Ascending(d, First(bound, Own(bound, t, k))) <==> OwnAscends(bound, d, t[k])
  {
    var b, v, h := t[k], Visits(t[k]), First(bound, Own(bound, t, k));
    AfterScanReverses(bound, b);
    assert h[..|b|] == v;
    assert |b| < bound ==> h == v + [v[|b| - 1]];
    if Ascending(d, h) {
      forall i, j | 0 <= i < j < |v| ensures d(v[i]) <= d(v[j]) { assert h[i] == v[i] && h[j] == v[j]; }
    }
    if Ascending(d, v) {
      forall i, j | 0 <= i < j < |h| ensures d(h[i]) <= d(h[j]) {
        assert h[i] == v[i] && h[j] == v[if j < |b| then j else |b| - 1];
      }
    }
  }

  lemma OwnAscendsExactly<T>(bound: nat, t: seq<seq<T>>, k: nat, d: T -> int)
    requires bound >= 6 && k < |t| && |t[k]| <= bound && Distinct(t[k]) && Separates(d, t[k])
    requires |t[k]| != 2 && (|t[k]| < 4 || |t[k]| > bound - 2)
    ensures Ascending(d, First(bound, Own(bound, t, k))) <==> OwnAscends(bound, d, t[k])
  {
    AnswerParts(bound, t, k);
    if |t[k]| == 1 {
      VisitsMembers(t[k], Visits(t[k])[0]);
      forall i | 0 <= i < 2 ensures Own(bound, t, k)[i] == t[k][0] { OwnMembers(bound, t, k, Own(bound, t, k)[i]); }
    } else if |t[k]| == 3 {
      OwnOfThree(bound, t, k, d);
    } else if |t[k]| >= 4 {
      OwnOfMany(bound, t, k, d);
    }
  }

  // ---------------------------------------------------------------- beyond the own bucket

  /** Distances agree with the order of the buckets. */
  ghost predicate Agrees<T(!new)>(d: T -> int, t: seq<seq<T>>, bits: nat -> bool) {
    forall i, j, a, b :: 0 <= i < |t| && 0 <= j < |t| && Nearer(bits, i, j) && a in t[i] && b in t[j] ==> d(a) < d(b)
  }

  /** What is answered of a reached bucket. */
  ghost function Part<T>(bound: nat, t: seq<seq<T>>, k: nat, j: nat): (v: seq<T>)
    requires k < |t| && Reached(bound, t, k, j)
    ensures v != [] && v[0] == t[j][0]
  {
    First(bound - Start(t, k, j), Visits(t[j]))
  }

  /** What is answered of each scan is in ascending distance; no bucket above the own one is answered after one
      below it; and of the answered buckets above, all but the last belong to set bits of the target's distance. */
  ghost predicate RestAscends<T>(bound: nat, t: seq<seq<T>>, k: nat, bits: nat -> bool, d: T -> int)
    requires k < |t|
  {
    && (forall j: nat :: Reached(bound, t, k, j) ==> Ascending(d, Part(bound, t, k, j)))
    && (forall i: nat, j: nat :: Reached(bound, t, k, i) && Reached(bound, t, k, j) && i < k < j ==> j - k < k - i)
    && (forall i: nat, j: nat :: Reached(bound, t, k, i) && Reached(bound, t, k, j) && k < i < j ==> bits(i))
  }

  /** What is answered beyond the own bucket. */
  function Rest<T>(bound: nat, t: seq<seq<T>>, k: nat): (r: seq<T>)
    requires k < |t|
  {
    First(Left(bound, |t[k]|), Scans(Around(t, k, 1)))
  }

  /** How much of it comes before bucket j. */
  function Offset<T>(t: seq<seq<T>>, k: nat, j: nat): (n: nat)
    requires k < |t| && j < |t| && j != k
  {
    Total(Inner(t, k, j))
  }

  lemma SliceOfFirst<T>(s: seq<T>, n: nat, v: seq<T>, limit: nat)
    requires n + |v| <= |s| && s[n..n + |v|] == v && n < limit
    ensures var w, r := First(limit - n, v), First(limit, s); n + |w| <= |r| && r[n..n + |w|] == w
  {
    var w := First(limit - n, v);
    assert s[n..n + |w|] == v[..|w|];
  }

  lemma ScanStandsAt<T>(t: seq<seq<T>>, k: nat, j: nat)
    requires k < |t| && j < |t| && j != k
    ensures var s, n := Scans(Around(t, k, 1)), Offset(t, k, j); n + |t[j]| <= |s| && s[n..n + |t[j]|] == Visits(t[j])
  {
    Placed(t, k, j);
    ScansSplit(Around(t, k, 1), Place(k, j));
  }

  /** Where a reached bucket stands in it. */
  lemma RestHas<T>(bound: nat, t: seq<seq<T>>, k: nat, j: nat)
    requires k < |t| && Reached(bound, t, k, j)
    ensures var r, n, v := Rest(bound, t, k), Offset(t, k, j), Part(bound, t, k, j); n + |v| <= |r| && r[n..n + |v|] == v
  {
    ScanStandsAt(t, k, j);
    SliceOfFirst(Scans(Around(t, k, 1)), Offset(t, k, j), Visits(t[j]), Left(bound, |t[k]|));
  }

  lemma ScanAt<T>(t: seq<seq<T>>, k: nat, x: nat) returns (j: nat)
    requires k < |t| && x < |Scans(Around(t, k, 1))|
    ensures j < |t| && j != k && Offset(t, k, j) <= x < Offset(t, k, j) + |t[j]|
  {
    var p := ScansAt(Around(t, k, 1), x);
    j := Unplaced(t, k, p);
  }

  /** Which bucket an answer beyond the own bucket comes from. */
  lemma RestAt<T>(bound: nat, t: seq<seq<T>>, k: nat, x: nat) returns (j: nat)
    requires k < |t| && x < |Rest(bound, t, k)|
    ensures Reached(bound, t, k, j)
    ensures var n, v := Offset(t, k, j), Part(bound, t, k, j); n <= x < n + |v| && Rest(bound, t, k)[x] == v[x - n]
    ensures Rest(bound, t, k)[x] in t[j]
  {
    j := ScanAt(t, k, x);
    RestHas(bound, t, k, j);
    var n, v := Offset(t, k, j), Part(bound, t, k, j);
    assert Rest(bound, t, k)[n..n + |v|][x - n] == v[x - n];
    VisitsMembers(t[j], Visits(t[j])[x - n]);
  }

  lemma EarlierFirst<T>(t: seq<seq<T>>, k: nat, i: nat, j: nat)
    requires k < |t| && i < |t| && j < |t| && i != k && j != k && Place(k, i) < Place(k, j)
    ensures Offset(t, k, i) + |t[i]| <= Offset(t, k, j)
  {
    Placed(t, k, i);
    Placed(t, k, j);
    TotalGrows(Around(t, k, 1), Place(k, i), Place(k, j));
  }

  /** Of two reached buckets, the one that comes first in an ascending answer is the nearer. */
  lemma FirstIsNearer<T(!new)>(bound: nat, t: seq<seq<T>>, k: nat, bits: nat -> bool, d: T -> int, i: nat, j: nat)
    requires k < |t| && Reached(bound, t, k, i) && Reached(bound, t, k, j) && Place(k, i) < Place(k, j)
    requires Agrees(d, t, bits) && Ascending(d, Rest(bound, t, k))
    ensures Nearer(bits, i, j)
  {
    var r := Rest(bound, t, k);
    RestHas(bound, t, k, i);
    RestHas(bound, t, k, j);
    EarlierFirst(t, k, i, j);
    var m, n := Offset(t, k, i), Offset(t, k, j);
    assert r[m] == t[i][0] && r[n] == t[j][0] && d(r[m]) <= d(r[n]);
    assert t[i][0] in t[i] && t[j][0] in t[j];
  }

  lemma PartAscends<T>(bound: nat, t: seq<seq<T>>, k: nat, d: T -> int, j: nat)
    requires k < |t| && Reached(bound, t, k, j) && Ascending(d, Rest(bound, t, k))
    ensures Ascending(d, Part(bound, t, k, j))
  {
    RestHas(bound, t, k, j);
    var r, n, v := Rest(bound, t, k), Offset(t, k, j), Part(bound, t, k, j);
    forall x, y | 0 <= x < y < |v| ensures d(v[x]) <= d(v[y]) {
      assert r[n + x] == r[n..n + |v|][x] && r[n + y] == r[n..n + |v|][y];
    }
  }

  lemma AscendingNeeds<T(!new)>(bound: nat, t: seq<seq<T>>, k: nat, bits: nat -> bool, d: T -> int)
    requires k < |t| && Agrees(d, t, bits) && Aimed(bits, k, |t|) && Ascending(d, Rest(bound, t, k))
    ensures RestAscends(bound, t, k, bits, d)
  {
    forall j: nat | Reached(bound, t, k, j) ensures Ascending(d, Part(bound, t, k, j)) {
      PartAscends(bound, t, k, d, j);
    }
    forall i: nat, j: nat | Reached(bound, t, k, i) && Reached(bound, t, k, j) && i < k < j ensures j - k < k - i {
      if j - k >= k - i { FirstIsNearer(bound, t, k, bits, d, i, j); }
    }
    forall i: nat, j: nat | Reached(bound, t, k, i) && Reached(bound, t, k, j) && k < i < j ensures bits(i) {
      FirstIsNearer(bound, t, k, bits, d, i, j);
    }
  }

  /** Under the condition, of two reached buckets the one that comes first is the nearer. */
  lemma ConditionNearer<T>(bound: nat, t: seq<seq<T>>, k: nat, bits: nat -> bool, d: T -> int, i: nat, j: nat)
    requires k < |t| && Aimed(bits, k, |t|) && RestAscends(bound, t, k, bits, d)
    requires Reached(bound, t, k, i) && Reached(bound, t, k, j) && Place(k, i) < Place(k, j)
    ensures Nearer(bits, i, j)
  {
  }

  lemma RestInOrder<T(!new)>(bound: nat, t: seq<seq<T>>, k: nat, bits: nat -> bool, d: T -> int, x: nat, y: nat)
    requires k < |t| && Agrees(d, t, bits) && Aimed(bits, k, |t|) && RestAscends(bound, t, k, bits, d)
    requires x < y < |Rest(bound, t, k)|
    ensures d(Rest(bound, t, k)[x]) <= d(Rest(bound, t, k)[y])
  {
    var i := RestAt(bound, t, k, x);
    var j := RestAt(bound, t, k, y);
    if i == j {
      assert Ascending(d, Part(bound, t, k, i));
    } else if Place(k, i) < Place(k, j) {
      ConditionNearer(bound, t, k, bits, d, i, j);
    } else {
      EarlierFirst(t, k, j, i);
    }
  }

  /** Beyond the own bucket, answers are in ascending distance exactly under that condition. */
  lemma RestAscendsExactly<T(!new)>(bound: nat, t: seq<seq<T>>, k: nat, bits: nat -> bool, d: T -> int)
    requires k < |t| && Agrees(d, t, bits) && Aimed(bits, k, |t|)
    ensures Ascending(d, Rest(bound, t, k)) <==> RestAscends(bound, t, k, bits, d)
  {
    if Ascending(d, Rest(bound, t, k)) {
      AscendingNeeds(bound, t, k, bits, d);
    }
    if RestAscends(bound, t, k, bits, d) {
      forall x, y | 0 <= x < y < |Rest(bound, t, k)| ensures d(Rest(bound, t, k)[x]) <= d(Rest(bound, t, k)[y]) {
        RestInOrder(bound, t, k, bits, d, x, y);
      }
    }
  }

  /** The answer is in ascending distance exactly when the own bucket has no or one address, or three whose last
      is nearer than its second and farther than its first, or at least 19 that a scan meets in ascending order;
      and beyond it each scan is in ascending order as far as it is answered, no bucket above is answered after one
      below, and all answered buckets above but the last belong to set bits of the target's distance. */
  lemma AscendingExactly<K(!new)>(home: K -> Index, t: Table<K>, k: Index, bits: nat -> bool, d: K -> int)
    requires WellFormed(home, t) && Separates(d, t[k]) && Aimed(bits, k, BUCKETS) && Agrees(d, t, bits)
    ensures Ascending(d, ClosestTo(t, k)) <==>
            OwnAscends(BUCKET_SIZE, d, t[k]) && RestAscends(BUCKET_SIZE, t, k, bits, d)
  {
    assert WellFormedBucket(home, t[k], k);
    var n := |t[k]|;
    if n == 2 || 4 <= n <= BUCKET_SIZE - 2 {
      NeverAscending(BUCKET_SIZE, t, k, d);
    } else {
      var own, rest := First(BUCKET_SIZE, Own(BUCKET_SIZE, t, k)), Rest(BUCKET_SIZE, t, k);
      AnswerParts(BUCKET_SIZE, t, k);
      OwnAscendsExactly(BUCKET_SIZE, t, k, d);
      RestAscendsExactly(BUCKET_SIZE, t, k, bits, d);
      forall a, b | a in own && b in rest ensures d(a) <= d(b) {
        OwnMembers(BUCKET_SIZE, t, k, a);
        var x :| 0 <= x < |rest| && rest[x] == b;
        var j := RestAt(BUCKET_SIZE, t, k, x);
        assert Nearer(bits, k, j);
      }
      AscendingConcat(d, own, rest);
    }
  }
}
