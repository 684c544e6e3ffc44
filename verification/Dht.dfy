/** The DHT of a peer (dht/dht.go): the network database keyed by twenty-byte addresses, with the
    bucket of an address given by its distance to the peer's own. */
module Dht {
  import opened Indices
  import opened Addresses
  import opened RoutingTable
  import opened Closest
  import opened Ordering
  import opened Ascent
  import opened Capacity
  import opened NetState
  import opened NetDatabase

  method NewNetDB(self: Address, verify: Verifier<Address>, rows: Rows<Address>, links: set<(nat, nat)>) returns (db: NetDB<Address>)
    requires RowsOk(rows) && LinksOk(rows, links)
    ensures fresh(db) && db.Valid() && db.home == Home(self) && db.verify == verify && db.State() == Opened(rows, links)
  {
    db := new NetDB<Address>(Home(self), verify, rows, links);
  }

  /** Over every run the table holds at most 3132 addresses, and only buckets 0 to 154 can be full. */
  lemma RunFits(self: Address, verify: Verifier<Address>, start: State<Address>, ops: seq<Op<Address>>)
    requires Invariant(Home(self), start)
    ensures var t := Run(Home(self), verify, start, ops).table;
            Size(t) <= 3132 && forall k :: 0 <= k < BUCKETS && |t[k]| == BUCKET_SIZE ==> k <= 154
  {
    RunKeeps(Home(self), verify, start, ops);
    TableFits(self, Run(Home(self), verify, start, ops).table);
  }

  /** After every run, when the target's bucket is full, every address FindClosest answers with is
      strictly closer to the target than every address in any other bucket. */
  lemma RunFullBucketIsClosest(self: Address, verify: Verifier<Address>, start: State<Address>, ops: seq<Op<Address>>,
                               target: Address, near: Address, far: Address, j: Index)
    requires Invariant(Home(self), start)
    requires var t := Run(Home(self), verify, start, ops).table;
             && |t[Bucket(self, target)]| == BUCKET_SIZE
             && near in ClosestTo(t, Bucket(self, target))
             && j != Bucket(self, target) && far in t[j]
    ensures Precedes(XorOf(near, target), XorOf(far, target))
  {
    RunKeeps(Home(self), verify, start, ops);
    FullBucketBeatsTheRest(self, Run(Home(self), verify, start, ops).table, target, near, far, j);
  }

  /** FindClosest in a reachable state: it answers with min(20, table size + size of the target's own
      bucket) addresses, every one resident, and leaves every bucket with the contents it had. */
  lemma RunFindClosest(self: Address, verify: Verifier<Address>, start: State<Address>, ops: seq<Op<Address>>, target: Address)
    requires Invariant(Home(self), start)
    ensures var s := Run(Home(self), verify, start, ops);
            var n := Size(s.table) + |s.table[Bucket(self, target)]|;
            var h := ClosestTo(s.table, Bucket(self, target));
            && |h| == (if n <= BUCKET_SIZE then n else BUCKET_SIZE)
            && (forall a :: a in h ==> Resident(Home(self), s.table, a) && a in s.rows)
    ensures var s := Run(Home(self), verify, start, ops);
            var s' := Step(Home(self), verify, s, FindClosest(target));
            && s'.rows == s.rows && s'.links == s.links
            && forall i :: 0 <= i < BUCKETS ==> multiset(s'.table[i]) == multiset(s.table[i])
  {
    var s := Run(Home(self), verify, start, ops);
    RunKeeps(Home(self), verify, start, ops);
    ClosestIsResident(Home(self), s.table, Bucket(self, target));
    forall i | 0 <= i < BUCKETS
      ensures multiset(Step(Home(self), verify, s, FindClosest(target)).table[i]) == multiset(s.table[i])
    {
      TouchingResidentsPermutes(Home(self), s.table, ClosestTo(s.table, Bucket(self, target)), i);
    }
  }

  // ---------------------------------------------------------------- answers and distances

  /** The bits of the distance between a peer and a target. */
  function DistanceBits(self: Address, target: Address): (bits: nat -> bool)
    ensures forall i: nat :: bits(i) <==> i < BUCKETS && BitOf(XorOf(target, self), i)
  {
    (i: nat) => i < BUCKETS && BitOf(XorOf(target, self), i)
  }

  lemma DistanceIsAimed(self: Address, target: Address)
    ensures Aimed(DistanceBits(self, target), Bucket(self, target), BUCKETS)
  {
    var d, k := XorOf(target, self), Bucket(self, target);
    forall i | 0 <= i < k ensures !DistanceBits(self, target)(i) {
      BitsUpToZeroes(d, i);
    }
    BitsUpToZeroes(d, k);
  }

  /** The order of the buckets is that of the distances: of two addresses in different buckets, the one in the
      nearer bucket is the closer to the target. */
  lemma NearerIsCloser(self: Address, target: Address, a: Address, b: Address)
    requires Bucket(self, a) != Bucket(self, b)
    ensures Precedes(XorOf(a, target), XorOf(b, target))
            <==> Nearer(DistanceBits(self, target), Bucket(self, a), Bucket(self, b))
  {
    if Bucket(self, a) < Bucket(self, b) {
      LowerBucketIsCloser(self, target, a, b);
    } else {
      LowerBucketIsCloser(self, target, b, a);
    }
  }

  /** With a full bucket that nothing comes before in the walk, every answered address is strictly farther from the
      target than every address in every nearer bucket, and none of those is answered. */
  lemma FartherAnsweredInstead(self: Address, t: Table<Address>, target: Address, j: Index, answered: Address, stored: Address, i: Index)
    requires WellFormed(Home(self), t)
    requires var k := Bucket(self, target); j != k && Start(t, k, j) == 0 && |t[j]| == BUCKET_SIZE
    requires Nearer(DistanceBits(self, target), i, j)
    requires answered in ClosestTo(t, Bucket(self, target)) && stored in t[i]
    ensures Precedes(XorOf(stored, target), XorOf(answered, target)) && stored !in ClosestTo(t, Bucket(self, target))
  {
    FullBucketHides(BUCKET_SIZE, t, Bucket(self, target), j);
    VisitsMembers(t[j], answered);
    assert WellFormedBucket(Home(self), t[j], j) && WellFormedBucket(Home(self), t[i], i);
    NearerIsCloser(self, target, stored, answered);
    if stored in ClosestTo(t, Bucket(self, target)) { VisitsMembers(t[j], stored); }
  }

  // ---------------------------------------------------------------- two tables of that kind

  /** The address of zeroes. */
  const ORIGIN: Address := [0, 0, 0, 0, 0, 0, 0, 0, 0, 0, 0, 0, 0, 0, 0, 0, 0, 0, 0, 0]

  /** The address with the given first and last byte, and zeroes between. */
  function Ends(first: byte, last: byte): Address {
    seq(ADDRESS_SIZE, i => if i == 0 then first else if i == ADDRESS_SIZE - 1 then last else 0)
  }

  lemma EndsBucket(first: byte, last: byte)
    requires first != 0
    ensures Bucket(ORIGIN, Ends(first, last)) == ByteZeroes(first)
  {
    EndsXorOrigin(first, last);
  }

  lemma EndsXorOrigin(first: byte, last: byte)
    ensures XorOf(Ends(first, last), ORIGIN) == Ends(first, last)
  {
    var a := Ends(first, last);
    forall i | 0 <= i < ADDRESS_SIZE ensures ByteXor(a[i], 0) == a[i] { BitXorZero(a[i]); }
  }

  lemma TopBits()
    ensures ByteZeroes(128) == 0 && ByteZeroes(64) == 1 && ByteZeroes(32) == 2 && ByteZeroes(16) == 3
  {
    assert Pow2(4) == 16 && Pow2(5) == 32 && Pow2(6) == 64 && Pow2(7) == 128 && Pow2(8) == 256;
    BitLengthRange(16, 4);
    BitLengthRange(16, 5);
    BitLengthRange(32, 5);
    BitLengthRange(32, 6);
    BitLengthRange(64, 6);
    BitLengthRange(64, 7);
    BitLengthRange(128, 7);
    BitLengthRange(128, 8);
  }

  function Twenty(first: byte): (b: seq<Address>) {
    seq(BUCKET_SIZE, i requires 0 <= i < BUCKET_SIZE => Ends(first, i))
  }

  /** Twenty addresses in one bucket, one in another. */
  function Lopsided(full: byte, single: byte): (t: Table<Address>)
    requires full != 0 && single != 0
    ensures |t| == BUCKETS
  {
    EmptyTable()[ByteZeroes(full) := Twenty(full)][ByteZeroes(single) := [Ends(single, 0)]]
  }

  lemma LopsidedIsWellFormed(full: byte, single: byte)
    requires full != 0 && single != 0 && ByteZeroes(full) != ByteZeroes(single)
    ensures WellFormed(Home(ORIGIN), Lopsided(full, single))
  {
    var b := Twenty(full);
    forall a | a in b ensures Home(ORIGIN)(a) == ByteZeroes(full) {
      var i :| 0 <= i < |b| && b[i] == a;
      EndsBucket(full, i);
    }
    forall i, j | 0 <= i < j < |b| ensures b[i] != b[j] {
      assert b[i][ADDRESS_SIZE - 1] == i && b[j][ADDRESS_SIZE - 1] == j;
    }
    EndsBucket(single, 0);
  }

  /** A run of queries reaches such a table. */
  lemma LopsidedOccurs(verify: Verifier<Address>, rows: Rows<Address>, links: set<(nat, nat)>, full: byte, single: byte)
    requires full != 0 && single != 0 && ByteZeroes(full) != ByteZeroes(single)
    requires RowsOk(rows) && LinksOk(rows, links) && TableStored(Lopsided(full, single), rows)
    ensures var t := Lopsided(full, single); Run(Home(ORIGIN), verify, Opened(rows, links), Queries(Filling(t, BUCKETS))).table == t
  {
    LopsidedIsWellFormed(full, single);
    EveryStateOccurs(Home(ORIGIN), verify, State(Lopsided(full, single), rows, links));
  }

  /** The target of both tables, in bucket 1: only bit 1 of its distance is set. */
  lemma TargetBits()
    ensures var bits := DistanceBits(ORIGIN, Ends(64, 0));
            Bucket(ORIGIN, Ends(64, 0)) == 1 && !bits(0) && bits(1) && !bits(2)
  {
    TopBits();
    var target := Ends(64, 0);
    EndsBucket(64, 0);
    DistanceIsAimed(ORIGIN, target);
    EndsXorOrigin(64, 0);
    assert target[2 / 8] == 64 && Pow2(5) == 32;
  }

  /** Twenty addresses are answered, each strictly farther from the target than one that is stored and not. */
  ghost predicate HidesCloser(t: Table<Address>, h: seq<Address>, target: Address, stored: Address) {
    && |h| == BUCKET_SIZE && stored !in h
    && (exists i :: 0 <= i < |t| && stored in t[i])
    && forall answered :: answered in h ==> Precedes(XorOf(stored, target), XorOf(answered, target))
  }

  lemma LopsidedHides(full: byte, single: byte)
    requires full != 0 && single != 0 && ByteZeroes(full) != ByteZeroes(single)
    requires var k, j := Bucket(ORIGIN, Ends(64, 0)), ByteZeroes(full);
             j != k && Start(Lopsided(full, single), k, j) == 0 && Nearer(DistanceBits(ORIGIN, Ends(64, 0)), ByteZeroes(single), j)
    ensures var t, target := Lopsided(full, single), Ends(64, 0);
            HidesCloser(t, ClosestTo(t, Bucket(ORIGIN, target)), target, Ends(single, 0))
  {
    var t, target, stored, j := Lopsided(full, single), Ends(64, 0), Ends(single, 0), ByteZeroes(full);
    LopsidedIsWellFormed(full, single);
    FullBucketHides(BUCKET_SIZE, t, Bucket(ORIGIN, target), j);
    var h := ClosestTo(t, Bucket(ORIGIN, target));
    assert stored in t[ByteZeroes(single)];
    forall answered | answered in h ensures Precedes(XorOf(stored, target), XorOf(answered, target)) && stored !in h {
      FartherAnsweredInstead(ORIGIN, t, target, j, answered, stored, ByteZeroes(single));
    }
    assert h[0] in h;
  }

  /** A full bucket below the target's hides a closer address above it. */
  lemma LeftHidesRight()
    ensures var t, target := Lopsided(128, 32), Ends(64, 0);
            HidesCloser(t, ClosestTo(t, Bucket(ORIGIN, target)), target, Ends(32, 0))
  {
    TopBits();
    TargetBits();
    LopsidedHides(128, 32);
  }

  /** Nothing comes before the bucket above the own one when this and the one below it are empty. */
  lemma NextStartsFirst<T>(t: seq<seq<T>>, k: nat)
    requires 0 < k && k + 1 < |t| && t[k - 1] == [] && t[k] == []
    ensures Start(t, k, k + 1) == 0
  {
    Placed(t, k, k - 1);
    var bs := Inner(t, k, k + 1);
    assert |bs| == 1 && bs[0] == t[k - 1] && bs[1..] == [];
    assert Total(bs) == |bs[0]| + Total(bs[1..]);
  }

  /** And a full bucket above the target's hides a closer address farther up: order above follows the bits of the
      target's distance, and the walk does not. */
  lemma RightHidesRight()
    ensures var t, target := Lopsided(32, 16), Ends(64, 0);
            HidesCloser(t, ClosestTo(t, Bucket(ORIGIN, target)), target, Ends(16, 0))
  {
    TopBits();
    TargetBits();
    NextStartsFirst(Lopsided(32, 16), 1);
    LopsidedHides(32, 16);
  }

  // ---------------------------------------------------------------- ascending distance

  function Distance(target: Address): (d: Address -> int)
    ensures forall a: Address :: d(a) == Value(XorOf(a, target))
  {
    (a: Address) => Value(XorOf(a, target))
  }

  lemma DistancesSeparate(target: Address, b: seq<Address>)
    ensures Separates(Distance(target), b)
  {
    forall x, y | x in b && y in b && Distance(target)(x) == Distance(target)(y) ensures x == y {
      XorInjective(x, y, target);
    }
  }

  /** After every run: with two, or four to eighteen, addresses in the target's bucket, no answer is in ascending
      distance to the target. */
  lemma RunNeverAscending(self: Address, verify: Verifier<Address>, start: State<Address>, ops: seq<Op<Address>>, target: Address)
    requires Invariant(Home(self), start)
    requires var n := |Run(Home(self), verify, start, ops).table[Bucket(self, target)]|; n == 2 || 4 <= n <= 18
    ensures var t := Run(Home(self), verify, start, ops).table;
            !Ascending(Distance(target), ClosestTo(t, Bucket(self, target)))
  {
    var t, k := Run(Home(self), verify, start, ops).table, Bucket(self, target);
    RunKeeps(Home(self), verify, start, ops);
    assert WellFormedBucket(Home(self), t[k], k);
    DistancesSeparate(target, t[k]);
    NeverAscending(BUCKET_SIZE, t, k, Distance(target));
  }

  lemma DistancesAgree(self: Address, t: Table<Address>, target: Address)
    requires WellFormed(Home(self), t)
    ensures Agrees(Distance(target), t, DistanceBits(self, target))
  {
    var d, bits := Distance(target), DistanceBits(self, target);
    forall i, j, a, b | 0 <= i < |t| && 0 <= j < |t| && Nearer(bits, i, j) && a in t[i] && b in t[j] ensures d(a) < d(b) {
      assert WellFormedBucket(Home(self), t[i], i) && WellFormedBucket(Home(self), t[j], j);
      NearerIsCloser(self, target, a, b);
      LessIsNumeric(XorOf(a, target), XorOf(b, target));
    }
  }

  /** The answer is in ascending distance exactly when the target's bucket has no or one address, or three whose
      last is nearer than its second and farther than its first, or at least 19 that a scan meets in ascending
      order; and beyond it each scan is in ascending order as far as it is answered, no bucket above is answered
      after one below, and all answered buckets above but the last belong to set bits of the target's distance. */
  lemma AscendingByDistance(self: Address, t: Table<Address>, target: Address)
    requires WellFormed(Home(self), t)
    ensures var k, d := Bucket(self, target), Distance(target);
            Ascending(d, ClosestTo(t, k)) <==>
            OwnAscends(BUCKET_SIZE, d, t[k]) && RestAscends(BUCKET_SIZE, t, k, DistanceBits(self, target), d)
  {
    var k := Bucket(self, target);
    DistancesSeparate(target, t[k]);
    DistanceIsAimed(self, target);
    DistancesAgree(self, t, target);
    AscendingExactly(Home(self), t, k, DistanceBits(self, target), Distance(target));
  }

  /** After every run: no address is answered before, or instead of, one from a bucket nearer to the target, exactly
      when the sizes of the buckets allow it. */
  lemma RunNearestFirst(self: Address, verify: Verifier<Address>, start: State<Address>, ops: seq<Op<Address>>, target: Address)
    requires Invariant(Home(self), start)
    ensures var t, k, bits := Run(Home(self), verify, start, ops).table, Bucket(self, target), DistanceBits(self, target);
            NearestFirst(t, bits, ClosestTo(t, k)) <==> SizesAllow(BUCKET_SIZE, t, k, bits)
  {
    RunKeeps(Home(self), verify, start, ops);
    DistanceIsAimed(self, target);
    NearestFirstExactly(Home(self), Run(Home(self), verify, start, ops).table, Bucket(self, target), DistanceBits(self, target));
  }
}
