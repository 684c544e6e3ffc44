/** What the methods of the network database rest on: the walk of `FindClosest` (dht/netdb.go:541-613) as far as it
    has come, the answers collected on the way, and the links of an entry registered so far. */
module Walks {
  import opened Indices
  import opened Options
  import opened Recency
  import opened RoutingTable
  import opened Closest
  import opened NetState
  import opened Slices

  lemma InvariantHomes<K(!new)>(home: K -> Index, s: State<K>)
    requires Invariant(home, s)
    ensures AllHomed(home, s.rows, s.table)
  {
    forall i | 0 <= i < BUCKETS ensures Homed(home, s.rows, s.table[i], i) {
      assert WellFormedBucket(home, s.table[i], i);
    }
  }

  /** The walk has made the queries `walked`, which left the table as `t`; buckets it has not reached are as they were. */
  ghost predicate Walked<K>(home: K -> Index, t0: Table<K>, k: nat, d: nat, right: bool, walked: seq<K>, t: Table<K>) {
    && |t0| == |t| == BUCKETS && k < BUCKETS
    && t == TouchTableAll(home, t0, First(BUCKET_SIZE, walked))
    && walked + Ahead(BUCKET_SIZE, t0, k, d, right) == Walk(BUCKET_SIZE, t0, k)
    && (d == 0 ==> walked == if right then Visits(t0[k]) else [])
    && forall i :: 0 <= i < BUCKETS && (if right then i < k - d || (i >= k + d && i != k) else i <= k - d || i >= k + d)
                   ==> t[i] == t0[i]
  }

  lemma WalkedLeft<K>(home: K -> Index, t0: Table<K>, k: nat, d: nat, walked: seq<K>, t: Table<K>, t': Table<K>)
    requires Walked(home, t0, k, d, false, walked, t)
    requires |t'| == BUCKETS && forall i :: 0 <= i < BUCKETS && i != k - d ==> t'[i] == t[i]
    requires t' == TouchTableAll(home, t0, First(BUCKET_SIZE, walked + Visits(Side(t0, k, d, false))))
    ensures Walked(home, t0, k, d, true, walked + Visits(Side(t0, k, d, false)), t')
  {
    WalkLeft(BUCKET_SIZE, t0, k, d, walked);
  }

  lemma WalkedRight<K>(home: K -> Index, t0: Table<K>, k: nat, d: nat, walked: seq<K>, t: Table<K>, t': Table<K>)
    requires Walked(home, t0, k, d, true, walked, t)
    requires |t'| == BUCKETS && forall i :: 0 <= i < BUCKETS && i != k + d ==> t'[i] == t[i]
    requires t' == TouchTableAll(home, t0, First(BUCKET_SIZE, walked + Visits(Current(BUCKET_SIZE, t0, k, d, true))))
    ensures Walked(home, t0, k, d + 1, false, walked + Visits(Current(BUCKET_SIZE, t0, k, d, true)), t')
  {
    WalkRight(BUCKET_SIZE, t0, k, d, walked);
  }

  lemma ListsNext<K>(s: seq<K>, all: set<K>, a: K)
    requires Lists(s, all) && a !in all
    ensures Lists(s + [a], all + {a})
  {
    assert (s + [a])[..|s|] == s;
    assert all + {a} - {a} == all;
  }

  lemma TableUpdated<K>(home: K -> Index, t: Table<K>, t': Table<K>, a: K)
    requires |t| == |t'| == BUCKETS && t'[home(a)] == Touch(BUCKET_SIZE, t[home(a)], a)
    requires forall i :: 0 <= i < BUCKETS && i != home(a) ==> t'[i] == t[i]
    ensures t' == TouchTable(home, t, a)
  {
  }

  lemma FirstIsPrefix<T>(bound: nat, x: seq<T>, n: nat)
    requires n <= |x| && n <= bound && (n == |x| || n == bound)
    ensures x[..n] == First(bound, x)
  {
  }

  lemma FirstOfLonger<T>(bound: nat, x: seq<T>, y: seq<T>)
    ensures |x| >= bound ==> First(bound, x + y) == First(bound, x)
  {
  }

  ghost predicate AllHomed<K(!new)>(home: K -> Index, rows: Rows<K>, t: Table<K>) {
    |t| == BUCKETS && forall i :: 0 <= i < BUCKETS ==> Homed(home, rows, t[i], i)
  }

  /** After its first scan the own bucket is `AfterScan` of what it was, and still at home. */
  lemma OwnBucketAgain<K(!new)>(home: K -> Index, rows: Rows<K>, t0: Table<K>, k: nat)
    requires AllHomed(home, rows, t0) && k < BUCKETS && |t0[k]| < BUCKET_SIZE
    ensures TouchTableAll(home, t0, First(BUCKET_SIZE, Visits(t0[k])))[k] == AfterScan(BUCKET_SIZE, t0[k])
    ensures Homed(home, rows, AfterScan(BUCKET_SIZE, t0[k]), k)
  {
    var b := t0[k];
    forall a | a in Visits(b) ensures home(a) == k { VisitsMembers(b, a); }
    TouchesOneBucket(home, t0, Visits(b), k);
    AfterScanPermutes(BUCKET_SIZE, b);
    forall a | a in AfterScan(BUCKET_SIZE, b) ensures a in rows && home(a) == k {
      SameMembers(AfterScan(BUCKET_SIZE, b), b, a);
    }
  }

  lemma AnswersConcat<K(!new)>(rows: Rows<K>, links: set<(nat, nat)>, h: seq<K>, g: seq<K>, es: seq<Option<Entry<K>>>, fs: seq<Option<Entry<K>>>)
    requires Answers(rows, links, h, es) && Answers(rows, links, g, fs)
    ensures Answers(rows, links, h + g, es + fs)
  {
  }

  lemma OthersUntouched<K(!new)>(home: K -> Index, rows: Rows<K>, t: Table<K>, j: nat, room: nat)
    requires |t| == BUCKETS && j < BUCKETS && Homed(home, rows, t[j], j)
    ensures forall i :: 0 <= i < BUCKETS && i != j ==> TouchTableAll(home, t, First(room, Visits(t[j])))[i] == t[i]
  {
    var g := First(room, Visits(t[j]));
    forall a | a in g ensures home(a) == j { VisitsMembers(t[j], a); }
    TouchesOneBucket(home, t, g, j);
  }

  /** Every address of the bucket belongs there and has a row. */
  ghost predicate Homed<K(!new)>(home: K -> Index, rows: Rows<K>, b: seq<K>, index: nat) {
    forall a :: a in b ==> a in rows && home(a) == index
  }

  lemma AnswersExtend<K(!new)>(rows: Rows<K>, links: set<(nat, nat)>, h: seq<K>, n: nat, es: seq<Option<Entry<K>>>, e: Option<Entry<K>>)
    requires n < |h| && Answers(rows, links, h[..n], es)
    requires e.Some? && e.value.address == h[n] && Stored(rows, links, e.value)
    ensures Answers(rows, links, h[..n + 1], es + [e])
  {
  }

  /** What a scan reads at position `n` after the first query has shifted the array. */
  lemma ReadWhileShifted<K(!new)>(b: seq<K>, n: nat)
    requires n < |b|
    ensures n == 0 ==> b[0] == Visits(b)[0]
    ensures n > 0 ==> Shifted(b, b[0])[n] == Visits(b)[n]
  {
    FindUnique(b, b[0], 0);
  }

  /** The pairs from position `i` on still have to be registered; those before it are. */
  ghost predicate Remaining<K(!new)>(rows: Rows<K>, start: set<(nat, nat)>, links: set<(nat, nat)>, ws: seq<(K, K)>, i: nat) {
    && i <= |ws|
    && AddLinks(rows, links, ws[i..]) == AddLinks(rows, start, ws)
    && KnownPrefix(rows, ws) == i + KnownPrefix(rows, ws[i..])
  }

  /** Registration has ended at an unknown peer. */
  ghost predicate Stopped<K(!new)>(rows: Rows<K>, start: set<(nat, nat)>, links: set<(nat, nat)>, ws: seq<(K, K)>) {
    links == AddLinks(rows, start, ws) && KnownPrefix(rows, ws) < |ws|
  }

  lemma RemainingAll<K(!new)>(rows: Rows<K>, links: set<(nat, nat)>, ws: seq<(K, K)>)
    ensures Remaining(rows, links, links, ws, 0)
  {
    assert ws[0..] == ws;
  }

  lemma WantedSeeding<K(!new)>(e: Entry<K>, i: nat)
    requires i < |e.seeding|
    ensures Wanted(e)[i] == (e.address, e.seeding[i])
  {
  }

  lemma WantedSeed<K(!new)>(e: Entry<K>, i: nat)
    requires i < |e.seeds|
    ensures Wanted(e)[|e.seeding| + i] == (e.seeds[i], e.address)
  {
  }

  lemma LinkStep<K(!new)>(rows: Rows<K>, start: set<(nat, nat)>, links: set<(nat, nat)>, ws: seq<(K, K)>, i: nat)
    requires i < |ws| && Remaining(rows, start, links, ws, i)
    ensures KnownPair(rows, ws[i]) ==> Remaining(rows, start, AddLinks(rows, links, [ws[i]]), ws, i + 1)
    ensures !KnownPair(rows, ws[i]) ==> Stopped(rows, start, AddLinks(rows, links, [ws[i]]), ws)
  {
    var w := [ws[i]];
    assert ws[i..][1..] == ws[i + 1..];
    assert w[1..] == [];
    assert KnownPair(rows, ws[i]) ==> AddLinks(rows, links, w) == AddLinks(rows, links + {IdPair(rows, w[0])}, w[1..]);
  }
}
