/** The routing table as a value (dht/netdb.go): 160 bounded most-recent-first buckets. `home` gives
    the bucket of a key; for addresses it is the leading-zero index of the distance to self. */
module RoutingTable {
  import opened Indices
  import opened Recency

  const BUCKET_SIZE: nat := 20

  type Table<K> = seq<seq<K>>

  function EmptyTable<K>(): (t: Table<K>)
    ensures |t| == BUCKETS && forall i :: 0 <= i < BUCKETS ==> t[i] == []
  {
    seq(BUCKETS, i => [])
  }

  /** Each address sits in the bucket its distance selects, and no bucket repeats one or overflows. */
  ghost predicate WellFormed<K>(home: K -> Index, t: Table<K>) {
    && |t| == BUCKETS
    && forall i :: 0 <= i < BUCKETS ==> WellFormedBucket(home, t[i], i)
  }

  ghost predicate WellFormedBucket<K>(home: K -> Index, b: seq<K>, i: nat) {
    && Distinct(b)
    && |b| <= BUCKET_SIZE
    && forall a :: a in b ==> home(a) == i
  }

  function TouchTable<K(==)>(home: K -> Index, t: Table<K>, a: K): (r: Table<K>)
    requires |t| == BUCKETS
    ensures |r| == BUCKETS
  {
    t[home(a) := Touch(BUCKET_SIZE, t[home(a)], a)]
  }

  function TouchTableAll<K(==)>(home: K -> Index, t: Table<K>, h: seq<K>): (r: Table<K>)
    requires |t| == BUCKETS
    ensures |r| == BUCKETS
  {
    if h == [] then t else TouchTable(home, TouchTableAll(home, t, h[..|h| - 1]), h[|h| - 1])
  }

  lemma TouchTableAllStep<K>(home: K -> Index, t: Table<K>, h: seq<K>, n: nat)
    requires |t| == BUCKETS && n < |h|
    ensures TouchTableAll(home, t, h[..n + 1]) == TouchTable(home, TouchTableAll(home, t, h[..n]), h[n])
  {
    assert h[..n + 1][..n] == h[..n];
  }

  /** A touch keeps the table well formed. */
  lemma TouchKeepsTable<K>(home: K -> Index, t: Table<K>, a: K)
    requires WellFormed(home, t)
    ensures WellFormed(home, TouchTable(home, t, a))
  {
    TouchKeeps(BUCKET_SIZE, t[home(a)], a);
  }

  lemma {:induction false} TouchAllKeepsTable<K>(home: K -> Index, t: Table<K>, h: seq<K>)
    requires WellFormed(home, t)
    ensures WellFormed(home, TouchTableAll(home, t, h))
  {
    if h != [] {
      TouchAllKeepsTable(home, t, h[..|h| - 1]);
      TouchKeepsTable(home, TouchTableAll(home, t, h[..|h| - 1]), h[|h| - 1]);
    }
  }

  lemma {:induction false} TouchTableAllConcat<K>(home: K -> Index, t: Table<K>, g: seq<K>, h: seq<K>)
    requires |t| == BUCKETS
    ensures TouchTableAll(home, t, g + h) == TouchTableAll(home, TouchTableAll(home, t, g), h)
  {
    if h == [] {
      assert g + h == g;
    } else {
      assert (g + h)[..|g + h| - 1] == g + h[..|h| - 1];
      TouchTableAllConcat(home, t, g, h[..|h| - 1]);
    }
  }

  /** The part of a history that falls into one bucket. */
  function OfBucket<K(==)>(home: K -> Index, h: seq<K>, i: nat): (r: seq<K>)
    ensures forall a :: a in r ==> a in h && home(a) == i
    ensures forall a :: a in h && home(a) == i ==> a in r
  {
    if h == [] then []
    else
      var r := OfBucket(home, h[..|h| - 1], i);
      if home(h[|h| - 1]) == i then r + [h[|h| - 1]] else r
  }

  /** Buckets do not interfere: each sees only its own part of the history. */
  lemma {:induction false} BucketsAreIndependent<K>(home: K -> Index, t: Table<K>, h: seq<K>, i: nat)
    requires |t| == BUCKETS && i < BUCKETS
    ensures TouchTableAll(home, t, h)[i] == TouchAll(BUCKET_SIZE, t[i], OfBucket(home, h, i))
  {
    if h != [] {
      BucketsAreIndependent(home, t, h[..|h| - 1], i);
      var r := OfBucket(home, h[..|h| - 1], i);
      assert (r + [h[|h| - 1]])[..|r|] == r;
    }
  }

  /** After any history of touches from an empty table, bucket `i` holds the first 20 of the
      distinct addresses with index `i`, ordered by most recent touch. */
  lemma BucketHoldsMostRecent<K>(home: K -> Index, h: seq<K>, i: nat)
    requires i < BUCKETS
    ensures TouchTableAll(home, EmptyTable(), h)[i] == First(BUCKET_SIZE, Recent(OfBucket(home, h, i)))
  {
    BucketsAreIndependent(home, EmptyTable(), h, i);
    TouchAllRefines(BUCKET_SIZE, OfBucket(home, h, i));
  }

  ghost predicate Resident<K>(home: K -> Index, t: Table<K>, a: K)
    requires |t| == BUCKETS
  {
    a in t[home(a)]
  }

  /** Touching addresses that are already resident evicts nothing: every bucket keeps its contents. */
  lemma {:induction false} TouchingResidentsPermutes<K>(home: K -> Index, t: Table<K>, h: seq<K>, i: nat)
    requires |t| == BUCKETS && i < BUCKETS
    requires forall a :: a in h ==> Resident(home, t, a)
    ensures multiset(TouchTableAll(home, t, h)[i]) == multiset(t[i])
  {
    if h != [] {
      var g, a := h[..|h| - 1], h[|h| - 1];
      TouchingResidentsPermutes(home, t, g, i);
      if home(a) == i {
        assert Resident(home, t, a);
        assert a in multiset(TouchTableAll(home, t, g)[i]);
        TouchPermutes(BUCKET_SIZE, TouchTableAll(home, t, g)[i], a);
      }
    }
  }

  /** A history within one bucket changes only that bucket. */
  lemma {:induction false} TouchesOneBucket<K>(home: K -> Index, t: Table<K>, h: seq<K>, k: nat)
    requires |t| == BUCKETS && k < BUCKETS && forall a :: a in h ==> home(a) == k
    ensures TouchTableAll(home, t, h) == t[k := TouchAll(BUCKET_SIZE, t[k], h)]
  {
    if h != [] { TouchesOneBucket(home, t, h[..|h| - 1], k); }
  }

  // ---------------------------------------------------------------- every well-formed table occurs

  function Backwards<T>(b: seq<T>): (r: seq<T>) {
    seq(|b|, i requires 0 <= i < |b| => b[|b| - 1 - i])
  }

  lemma BackwardsStep<T>(b: seq<T>)
    requires b != []
    ensures Backwards(b) == Backwards(b[1..]) + [b[0]]
  {
  }

  lemma RecentSnoc<T>(h: seq<T>, a: T)
    requires a !in Recent(h)
    ensures Recent(h + [a]) == [a] + Recent(h)
  {
    var c := h + [a];
    assert c[..|c| - 1] == h && c[|c| - 1] == a;
  }

  /** Touching a bucket from its back to its front makes that bucket. */
  lemma {:induction false} RecentBackwards<T>(b: seq<T>)
    requires Distinct(b)
    ensures Recent(Backwards(b)) == b
  {
    if b != [] {
      RecentBackwards(b[1..]);
      BackwardsStep(b);
      RecentSnoc(Backwards(b[1..]), b[0]);
      assert b == [b[0]] + b[1..];
    }
  }

  lemma FillBucket<K>(home: K -> Index, t: Table<K>, b: seq<K>, k: nat)
    requires |t| == BUCKETS && k < BUCKETS && t[k] == [] && WellFormedBucket(home, b, k)
    ensures TouchTableAll(home, t, Backwards(b)) == t[k := b]
  {
    forall a | a in Backwards(b) ensures home(a) == k {
      var n :| 0 <= n < |b| && Backwards(b)[n] == a;
      assert b[|b| - 1 - n] in b;
    }
    TouchesOneBucket(home, t, Backwards(b), k);
    TouchAllRefines(BUCKET_SIZE, Backwards(b));
    RecentBackwards(b);
  }

  /** Touches that fill the first n buckets of a table, one after the other. */
  function Filling<K>(t: Table<K>, n: nat): (h: seq<K>)
    requires n <= |t|
  {
    if n == 0 then [] else Filling(t, n - 1) + Backwards(t[n - 1])
  }

  lemma {:induction false} Filled<K>(home: K -> Index, t: Table<K>, n: nat)
    requires WellFormed(home, t) && n <= BUCKETS
    ensures TouchTableAll(home, EmptyTable(), Filling(t, n)) == t[..n] + EmptyTable()[n..]
  {
    if n == 0 {
      assert t[..0] + EmptyTable()[0..] == EmptyTable();
    } else {
      var before := t[..n - 1] + EmptyTable()[n - 1..];
      Filled(home, t, n - 1);
      TouchTableAllConcat(home, EmptyTable(), Filling(t, n - 1), Backwards(t[n - 1]));
      assert WellFormedBucket(home, t[n - 1], n - 1);
      FillBucket(home, before, t[n - 1], n - 1);
      assert before[n - 1 := t[n - 1]] == t[..n] + EmptyTable()[n..];
    }
  }

  /** Every well-formed table is what some history of touches leaves. */
  lemma WellFormedOccurs<K>(home: K -> Index, t: Table<K>)
    requires WellFormed(home, t)
    ensures TouchTableAll(home, EmptyTable(), Filling(t, BUCKETS)) == t
  {
    Filled(home, t, BUCKETS);
    assert t[..BUCKETS] + EmptyTable()[BUCKETS..] == t;
  }
}
