/** The network database (dht/netdb.go) as the object the source has: bucket slices over arrays that
    are shifted in place, and SQL tables as map- and set-valued fields. Each operation is proved to
    take the abstract state of module NetState to its successor. Keys are peer addresses and `home` is
    the bucket a distance selects; module Dht instantiates them. */
module NetDatabase {
  import opened Indices
  import opened Options
  import opened Recency
  import opened RoutingTable
  import opened Closest
  import opened NetState
  import opened Slices
  import opened Walks

  datatype Outcome = Outcome(affected: nat, failed: bool)

  ghost predicate DifferOnlyAt<K>(s: seq<Slice<K>>, t: seq<Slice<K>>, k: nat) {
    |s| == |t| && forall i :: 0 <= i < |s| && i != k ==> s[i] == t[i]
  }

  class NetDB<K(!new,==)> {
    const home: K -> Index
    const verify: Verifier<K>
    var table: seq<Slice<K>>
    var rows: Rows<K>
    var links: set<(nat, nat)>

    ghost function Arrays(): (r: set<array<K>>)
      reads this
    {
      set i | 0 <= i < |table| :: table[i].data
    }

    ghost predicate Slices()
      reads this
    {
      && |table| == BUCKETS
      && (forall i :: 0 <= i < BUCKETS ==> table[i].len <= table[i].data.Length)
      && (forall i, j :: 0 <= i < j < BUCKETS ==> table[i].data != table[j].data)
    }

    ghost function Contents(i: nat): (b: seq<K>)
      requires Slices() && i < BUCKETS
      reads this, Arrays()
    {
      table[i].data[..table[i].len]
    }

    ghost function Buckets(): (t: Table<K>)
      requires Slices()
      reads this, Arrays()
      ensures |t| == BUCKETS && forall i :: 0 <= i < BUCKETS ==> t[i] == Contents(i)
    {
      seq(BUCKETS, i requires 0 <= i < BUCKETS && Slices() reads this, Arrays() => Contents(i))
    }

    ghost function State(): (s: State<K>)
      requires Slices()
      reads this, Arrays()
    {
      NetState.State(Buckets(), rows, links)
    }

    ghost predicate Valid()
      reads this, Arrays()
    {
      Slices() && Invariant(home, State())
    }

    /** Opens a database file with the rows and links it holds. */
    constructor (home: K -> Index, verify: Verifier<K>, rows: Rows<K>, links: set<(nat, nat)>)
      requires RowsOk(rows) && LinksOk(rows, links)
      ensures Valid() && State() == Opened(rows, links)
      ensures this.home == home && this.verify == verify && fresh(Arrays())
    {
      this.home := home;
      this.verify := verify;
      table := [];
      this.rows := rows;
      this.links := links;
      new;
      while |table| < BUCKETS
        invariant |table| <= BUCKETS && this.rows == rows && this.links == links && this.home == home && this.verify == verify
        invariant forall i :: 0 <= i < |table| ==> table[i].len == 0 && fresh(table[i].data)
        invariant forall i, j :: 0 <= i < j < |table| ==> table[i].data != table[j].data
      {
        var data := new K[0];
        table := table + [Slice(data, 0)];
      }
      assert Buckets() == EmptyTable();
      OpenedKeeps(home, rows, links);
    }

    /** Moves `addr` to the front of its bucket. */
    method InsertIntoTable(addr: K)
      requires Slices()
      modifies this`table, table[home(addr)].data
      ensures Slices() && Buckets() == TouchTable(home, old(Buckets()), addr)
      ensures var k := home(addr);
              && fresh(table[k].data)
              && DifferOnlyAt(old(table), table, k)
              && old(table)[k].data[..old(table)[k].len] == Shifted(old(Contents(k)), addr)
    {
      var index := home(addr);
      var bucket := TouchSlice(BUCKET_SIZE, table[index], addr);
      table := table[index := bucket];
      assert forall i :: 0 <= i < BUCKETS && i != index ==> Contents(i) == old(Contents(i));
      TableUpdated(home, old(Buckets()), Buckets(), addr);
    }

    // ---------------------------------------------------------------- the SQL tables

    /** The statements of InsertSeed: the ids of the two rows, and the pair. */
    method LinkSeed(entry: K, seed: K) returns (failed: bool)
      modifies this`links
      ensures links == AddLinks(rows, old(links), [(seed, entry)])
      ensures failed <==> !KnownPair(rows, (seed, entry))
    {
      if entry !in rows {
        return true;
      }
      if seed !in rows {
        return true;
      }
      links := links + {(rows[seed].id, rows[entry].id)};
      return false;
    }

    /** Registers a seed; fails when either peer has no row. */
    method InsertSeed(entry: K, seed: K) returns (failed: bool)
      requires Slices()
      modifies this`links
      ensures Slices() && State() == Step(home, verify, old(State()), Op.InsertSeed(entry, seed)) && (old(Valid()) ==> Valid())
      ensures failed <==> !KnownPair(rows, (seed, entry))
    {
      failed := LinkSeed(entry, seed);
      assert Buckets() == old(Buckets());
      if old(Valid()) { StepKeeps(home, verify, old(State()), Op.InsertSeed(entry, seed)); }
    }

    /** Registers the pair at position `i` of what the entry asks for. */
    method RegisterPair(entry: Entry<K>, owner: K, seed: K, ghost start: set<(nat, nat)>, ghost i: nat) returns (failed: bool)
      requires i < |Wanted(entry)| && Wanted(entry)[i] == (seed, owner) && Remaining(rows, start, links, Wanted(entry), i)
      modifies this`links
      ensures failed ==> Stopped(rows, start, links, Wanted(entry))
      ensures !failed ==> Remaining(rows, start, links, Wanted(entry), i + 1)
    {
      LinkStep(rows, start, links, Wanted(entry), i);
      failed := LinkSeed(owner, seed);
    }

    /** First loop of InsertEntrySeeds: the entry is a seed for each of these peers. */
    method RegisterSeeding(entry: Entry<K>) returns (failed: bool)
      modifies this`links
      ensures failed ==> Stopped(rows, old(links), links, Wanted(entry))
      ensures !failed ==> Remaining(rows, old(links), links, Wanted(entry), |entry.seeding|)
    {
      RemainingAll(rows, links, Wanted(entry));
      for i := 0 to |entry.seeding|
        invariant Remaining(rows, old(links), links, Wanted(entry), i)
      {
        WantedSeeding(entry, i);
        failed := RegisterPair(entry, entry.seeding[i], entry.address, old(links), i);
        if failed {
          return;
        }
      }
      failed := false;
    }

    /** Second loop of InsertEntrySeeds: each of these peers is a seed for the entry. */
    method RegisterSeeds(entry: Entry<K>, ghost start: set<(nat, nat)>) returns (failed: bool)
      requires Remaining(rows, start, links, Wanted(entry), |entry.seeding|)
      modifies this`links
      ensures failed ==> Stopped(rows, start, links, Wanted(entry))
      ensures !failed ==> Remaining(rows, start, links, Wanted(entry), |Wanted(entry)|)
    {
      for i := 0 to |entry.seeds|
        invariant Remaining(rows, start, links, Wanted(entry), |entry.seeding| + i)
      {
        WantedSeed(entry, i);
        failed := RegisterPair(entry, entry.address, entry.seeds[i], start, |entry.seeding| + i);
        if failed {
          return;
        }
      }
      failed := false;
    }

    /** Registers what the entry is seeding and then its seeds, up to the first unknown peer. */
    method InsertEntrySeeds(entry: Entry<K>) returns (failed: bool)
      modifies this`links
      ensures links == AddLinks(rows, old(links), Wanted(entry))
      ensures failed <==> KnownPrefix(rows, Wanted(entry)) < |Wanted(entry)|
    {
      failed := RegisterSeeding(entry);
      if !failed {
        failed := RegisterSeeds(entry, old(links));
      }
    }

    /** UPDATE entry ... WHERE address = ?: the number of rows it matched, or None when the entry does not verify. */
    method Update(entry: Entry<K>) returns (affected: Option<nat>)
      modifies this`rows
      ensures affected == if verify(entry) then Some(if entry.address in old(rows) then 1 else 0) else None
      ensures rows == if verify(entry) && entry.address in old(rows)
                      then old(rows)[entry.address := Row(old(rows)[entry.address].id, entry.info)] else old(rows)
    {
      if !verify(entry) {
        return None;
      }
      if entry.address in rows {
        rows := rows[entry.address := Row(rows[entry.address].id, entry.info)];
        return Some(1);
      }
      return Some(0);
    }

    /** INSERT OR IGNORE INTO entry. */
    method InsertIntoDB(entry: Entry<K>) returns (affected: nat)
      modifies this`rows
      ensures affected == if entry.address in old(rows) then 0 else 1
      ensures rows == if entry.address in old(rows) then old(rows) else NewRow(old(rows), entry)
    {
      if entry.address in rows {
        return 0;
      }
      rows := rows[entry.address := Row(|rows| + 1, entry.info)];
      return 1;
    }

    /** The database half of an insert: update the row, or create it and register the seeds it names. */
    method Store(entry: Entry<K>) returns (o: Outcome)
      requires verify(entry)
      modifies this`rows, this`links
      ensures forall t :: NetState.State(t, rows, links) == InsertRow(NetState.State(t, old(rows), old(links)), entry)
      ensures o.affected == 1
      ensures o.failed <==> entry.address !in old(rows) && KnownPrefix(rows, Wanted(entry)) < |Wanted(entry)|
    {
      var updated := Update(entry);
      if updated.value > 0 {
        return Outcome(updated.value, false);
      }
      var affected := InsertIntoDB(entry);
      var failed := InsertEntrySeeds(entry);
      o := Outcome(affected, failed);
    }

    /** Touches the table and updates or creates the row; a new row also registers the seeds it names. */
    method Insert(entry: Entry<K>) returns (o: Outcome)
      requires Slices()
      modifies this`table, this`rows, this`links, table[home(entry.address)].data
      ensures Slices() && State() == Step(home, verify, old(State()), Op.Insert(entry)) && (old(Valid()) ==> Valid())
      ensures forall i :: 0 <= i < BUCKETS ==> table[i] == old(table)[i] || fresh(table[i].data)
      ensures !verify(entry) ==> o == Outcome(0, true)
      ensures verify(entry) ==> o.affected == 1
      ensures verify(entry) ==>
                (o.failed <==> entry.address !in old(rows) && KnownPrefix(rows, Wanted(entry)) < |Wanted(entry)|)
    {
      if !verify(entry) {
        return Outcome(0, true);
      }
      InsertIntoTable(entry.address);
      ghost var buckets := Buckets();
      o := Store(entry);
      assert Buckets() == buckets;
      if old(Valid()) { StepKeeps(home, verify, old(State()), Op.Insert(entry)); }
    }

    /** The addresses registered as seeds for the row `id`, in no particular order. */
    method QuerySeeds(id: nat) returns (ret: seq<K>)
      ensures Lists(ret, SeedsOf(rows, links, id))
    {
      ret := [];
      var cursor := SeedsOf(rows, links, id);
      ghost var read := {};
      while cursor != {}
        invariant cursor !! read && cursor + read == SeedsOf(rows, links, id)
        invariant Lists(ret, read)
        decreases cursor
      {
        var address :| address in cursor;
        cursor := cursor - {address};
        ListsNext(ret, read, address);
        ret, read := ret + [address], read + {address};
      }
    }

    /** The addresses the row `id` is a seed for, in no particular order. */
    method QuerySeeding(id: nat) returns (ret: seq<K>)
      ensures Lists(ret, SeedingOf(rows, links, id))
    {
      ret := [];
      var cursor := SeedingOf(rows, links, id);
      ghost var read := {};
      while cursor != {}
        invariant cursor !! read && cursor + read == SeedingOf(rows, links, id)
        invariant Lists(ret, read)
        decreases cursor
      {
        var address :| address in cursor;
        cursor := cursor - {address};
        ListsNext(ret, read, address);
        ret, read := ret + [address], read + {address};
      }
    }

    /** The entry of a row, with its seeds and seedings. */
    method ReadEntry(addr: K) returns (e: Entry<K>)
      requires Slices() && addr in rows
      ensures e.address == addr && Stored(rows, links, e)
    {
      var row := rows[addr];
      var seeds := QuerySeeds(row.id);
      var seeding := QuerySeeding(row.id);
      e := Entry(addr, row.info, seeds, seeding);
    }

    /** Looks an address up; a hit moves it to the front of its bucket. */
    method Lookup(addr: K) returns (r: Option<Entry<K>>, id: int)
      requires Slices()
      modifies this`table, if addr in rows then {table[home(addr)].data} else {}
      ensures Slices() && State() == Step(home, verify, old(State()), Op.Query(addr))
      ensures r.Some? <==> addr in rows
      ensures r.Some? ==> r.value.address == addr && Stored(rows, links, r.value) && id == rows[r.value.address].id
      ensures r.None? ==> id == -1 && table == old(table)
      ensures r.Some? ==>
                var k := home(addr);
                && fresh(table[k].data)
                && DifferOnlyAt(old(table), table, k)
                && old(table)[k].data[..old(table)[k].len] == Shifted(old(Contents(k)), addr)
    {
      if addr !in rows {
        return None, -1;
      }
      var e := ReadEntry(addr);
      InsertIntoTable(addr);
      r, id := Some(e), rows[addr].id;
    }

    /** Query: a lookup, which keeps the database valid. */
    method Query(addr: K) returns (r: Option<Entry<K>>, id: int)
      requires Slices()
      modifies this`table, if addr in rows then {table[home(addr)].data} else {}
      ensures Slices() && State() == Step(home, verify, old(State()), Op.Query(addr)) && (old(Valid()) ==> Valid())
      ensures r.Some? <==> addr in rows
      ensures r.Some? ==> r.value.address == addr && Stored(rows, links, r.value) && id == rows[addr].id
      ensures r.None? ==> id == -1
      ensures forall i :: 0 <= i < BUCKETS ==> table[i] == old(table)[i] || fresh(table[i].data)
    {
      r, id := Lookup(addr);
      if old(Valid()) { StepKeeps(home, verify, old(State()), Op.Query(addr)); }
    }

    // ---------------------------------------------------------------- scanning buckets while queries move their addresses

    /** A scan of bucket `index`, whose contents were t0[index], has made `n` queries. From the first
        query on, the slice it reads is no longer the bucket: its array was shifted and replaced. */
    ghost predicate Scanning(bucket: Slice<K>, index: nat, t0: Table<K>, n: nat)
      reads this, Arrays(), bucket.data
    {
      && Slices() && index < BUCKETS && |t0| == BUCKETS
      && bucket.len <= bucket.data.Length && |t0[index]| == bucket.len && n <= bucket.len
      && Buckets() == TouchTableAll(home, t0, Visits(t0[index])[..n])
      && (n == 0 ==> table[index] == bucket)
      && (n > 0 ==> bucket.data !in Arrays() && bucket.data[..bucket.len] == Shifted(t0[index], t0[index][0]))
    }

    /** One step of a scan. */
    method Visit(bucket: Slice<K>, index: nat, ghost t0: Table<K>, n: nat) returns (r: Option<Entry<K>>)
      requires Scanning(bucket, index, t0, n) && n < bucket.len && Homed(home, rows, t0[index], index)
      modifies this`table, table[index].data
      ensures Scanning(bucket, index, t0, n + 1)
      ensures fresh(table[index].data) && DifferOnlyAt(old(table), table, index)
      ensures r.Some? && r.value.address == Visits(t0[index])[n] && Stored(rows, links, r.value)
    {
      NextVisit(bucket, index, t0, n);
      TouchTableAllStep(home, t0, Visits(t0[index]), n);
      var id;
      r, id := Lookup(bucket.data[n]);
      assert n > 0 ==> bucket.data[..bucket.len] == old(bucket.data[..bucket.len]);
    }

    lemma NextVisit(bucket: Slice<K>, index: nat, t0: Table<K>, n: nat)
      requires Scanning(bucket, index, t0, n) && n < bucket.len && Homed(home, rows, t0[index], index)
      ensures bucket.data[n] == Visits(t0[index])[n]
      ensures bucket.data[n] in rows && home(bucket.data[n]) == index
    {
      var b := t0[index];
      ReadWhileShifted(b, n);
      VisitsMembers(b, Visits(b)[n]);
      if n == 0 { assert Buckets()[index] == b; }
    }

    /** One step of a scan, with the answer it extends. */
    method Collect(bucket: Slice<K>, index: nat, ghost t0: Table<K>, n: nat, found: seq<Option<Entry<K>>>) returns (ret: seq<Option<Entry<K>>>)
      requires Scanning(bucket, index, t0, n) && n < bucket.len && Homed(home, rows, t0[index], index)
      requires Answers(rows, links, Visits(t0[index])[..n], found)
      modifies this`table, table[index].data
      ensures Scanning(bucket, index, t0, n + 1)
      ensures fresh(table[index].data) && DifferOnlyAt(old(table), table, index)
      ensures Answers(rows, links, Visits(t0[index])[..n + 1], ret)
    {
      var kv := Visit(bucket, index, t0, n);
      AnswersExtend(rows, links, Visits(t0[index]), n, found, kv);
      ret := found + [kv];
    }

    /** Queries every address of a bucket. */
    method QueryAddresses(index: nat) returns (ret: seq<Option<Entry<K>>>)
      requires Slices() && index < BUCKETS && Homed(home, rows, Contents(index), index)
      modifies this`table, table[index].data
      ensures Slices() && DifferOnlyAt(old(table), table, index)
      ensures table[index] == old(table)[index] || fresh(table[index].data)
      ensures Buckets() == TouchTableAll(home, old(Buckets()), Visits(old(Contents(index))))
      ensures Answers(rows, links, Visits(old(Contents(index))), ret)
    {
      var bucket := table[index];
      ghost var t0 := Buckets();
      ghost var v := Visits(t0[index]);
      ret := [];
      for n := 0 to bucket.len
        invariant Scanning(bucket, index, t0, n)
        invariant n == 0 || fresh(table[index].data)
        invariant DifferOnlyAt(old(table), table, index)
        invariant Answers(rows, links, v[..n], ret)
      {
        ret := Collect(bucket, index, t0, n, ret);
      }
      assert v[..bucket.len] == v;
    }

    /** Queries the addresses of a bucket until `room` entries are found. */
    method QueryUpTo(index: nat, room: nat) returns (ret: seq<Option<Entry<K>>>)
      requires Slices() && index < BUCKETS && Homed(home, rows, Contents(index), index)
      modifies this`table, table[index].data
      ensures Slices() && DifferOnlyAt(old(table), table, index)
      ensures table[index] == old(table)[index] || fresh(table[index].data)
      ensures Buckets() == TouchTableAll(home, old(Buckets()), First(room, Visits(old(Contents(index)))))
      ensures Answers(rows, links, First(room, Visits(old(Contents(index)))), ret)
    {
      var bucket := table[index];
      ghost var t0 := Buckets();
      ghost var v := Visits(t0[index]);
      ret := [];
      var n := 0;
      while n < bucket.len && |ret| < room
        invariant Scanning(bucket, index, t0, n)
        invariant table[index] == old(table)[index] || fresh(table[index].data)
        invariant DifferOnlyAt(old(table), table, index)
        invariant n <= room && Answers(rows, links, v[..n], ret)
      {
        ret := Collect(bucket, index, t0, n, ret);
        n := n + 1;
      }
      FirstIsPrefix(room, v, n);
    }

    // ---------------------------------------------------------------- the walk

    /** One scan of the walk: extends the answer for `walked` by the queries of bucket `j`. */
    method Extend(j: nat, answer: seq<Option<Entry<K>>>, ghost t0: Table<K>, ghost walked: seq<K>) returns (ret: seq<Option<Entry<K>>>)
      requires Slices() && j < BUCKETS && Homed(home, rows, Contents(j), j) && |t0| == BUCKETS
      requires Buckets() == TouchTableAll(home, t0, First(BUCKET_SIZE, walked))
      requires Answers(rows, links, First(BUCKET_SIZE, walked), answer)
      modifies this`table, table[j].data
      ensures Slices() && DifferOnlyAt(old(table), table, j)
      ensures table[j] == old(table)[j] || fresh(table[j].data)
      ensures forall i :: 0 <= i < BUCKETS && i != j ==> Buckets()[i] == old(Buckets())[i]
      ensures var w := First(BUCKET_SIZE, walked + Visits(old(Contents(j))));
              Buckets() == TouchTableAll(home, t0, w) && Answers(rows, links, w, ret)
    {
      ghost var v := Visits(Contents(j));
      ghost var h, g := First(BUCKET_SIZE, walked), First(BUCKET_SIZE - |answer|, v);
      var found := QueryUpTo(j, BUCKET_SIZE - |answer|);
      ret := answer + found;
      FirstConcat(BUCKET_SIZE, walked, v);
      TouchTableAllConcat(home, t0, h, g);
      AnswersConcat(rows, links, h, g, answer, found);
      OthersUntouched(home, rows, old(Buckets()), j, BUCKET_SIZE - |answer|);
    }

    /** The state of the walk at distance `d` from bucket `k`, before the left or before the right scan. */
    ghost predicate Walking(t0: Table<K>, k: nat, d: nat, right: bool, walked: seq<K>, ret: seq<Option<Entry<K>>>)
      reads this, Arrays()
    {
      && Slices() && k < BUCKETS && AllHomed(home, rows, t0) && |t0[k]| < BUCKET_SIZE
      && Walked(home, t0, k, d, right, walked, Buckets())
      && Answers(rows, links, First(BUCKET_SIZE, walked), ret)
    }

    /** The left half of an iteration. */
    method ScanLeft(k: nat, d: nat, answer: seq<Option<Entry<K>>>, ghost t0: Table<K>, ghost walked: seq<K>)
      returns (ret: seq<Option<Entry<K>>>, ghost walked': seq<K>)
      requires Walking(t0, k, d, false, walked, answer) && d <= k
      modifies this`table, table[k - d].data
      ensures Walking(t0, k, d, true, walked', ret)
      ensures forall j :: 0 <= j < BUCKETS ==> table[j] == old(table)[j] || fresh(table[j].data)
    {
      ghost var before := Buckets();
      assert Contents(k - d) == before[k - d] == t0[k - d];
      walked' := walked + Visits(t0[k - d]);
      ret := Extend(k - d, answer, t0, walked);
      WalkedLeft(home, t0, k, d, walked, before, Buckets());
    }

    lemma SkipLeft(k: nat, d: nat, answer: seq<Option<Entry<K>>>, t0: Table<K>, walked: seq<K>)
      requires Walking(t0, k, d, false, walked, answer) && d > k
      ensures Walking(t0, k, d, true, walked, answer)
    {
      assert walked + Visits(Side(t0, k, d, false)) == walked;
      WalkedLeft(home, t0, k, d, walked, Buckets(), Buckets());
    }

    /** The right half of an iteration; at distance zero it scans the own bucket once more. */
    method ScanRight(k: nat, d: nat, answer: seq<Option<Entry<K>>>, ghost t0: Table<K>, ghost walked: seq<K>)
      returns (ret: seq<Option<Entry<K>>>, ghost walked': seq<K>)
      requires Walking(t0, k, d, true, walked, answer) && k + d < BUCKETS
      modifies this`table, table[k + d].data
      ensures Walking(t0, k, d + 1, false, walked', ret)
      ensures forall j :: 0 <= j < BUCKETS ==> table[j] == old(table)[j] || fresh(table[j].data)
    {
      ghost var before, b := Buckets(), Current(BUCKET_SIZE, t0, k, d, true);
      if d == 0 { OwnBucketAgain(home, rows, t0, k); }
      assert Contents(k + d) == before[k + d] == b;
      walked' := walked + Visits(b);
      ret := Extend(k + d, answer, t0, walked);
      WalkedRight(home, t0, k, d, walked, before, Buckets());
    }

    lemma SkipRight(k: nat, d: nat, answer: seq<Option<Entry<K>>>, t0: Table<K>, walked: seq<K>)
      requires Walking(t0, k, d, true, walked, answer) && k + d >= BUCKETS
      ensures Walking(t0, k, d + 1, false, walked, answer)
    {
      assert walked + Visits(Side(t0, k, d, true)) == walked;
      WalkedRight(home, t0, k, d, walked, Buckets(), Buckets());
    }

    /** The left half of an iteration, which the left end of the table cuts off. */
    method LeftHalf(k: nat, d: nat, answer: seq<Option<Entry<K>>>, ghost t0: Table<K>, ghost walked: seq<K>)
      returns (ret: seq<Option<Entry<K>>>, ghost walked': seq<K>)
      requires Walking(t0, k, d, false, walked, answer)
      modifies this`table, Arrays()
      ensures Walking(t0, k, d, true, walked', ret)
      ensures forall j :: 0 <= j < BUCKETS ==> table[j] == old(table)[j] || fresh(table[j].data)
    {
      if k - d >= 0 {
        ret, walked' := ScanLeft(k, d, answer, t0, walked);
      } else {
        ret, walked' := answer, walked;
        SkipLeft(k, d, ret, t0, walked');
      }
    }

    /** The right half of an iteration, which the right end of the table cuts off. */
    method RightHalf(k: nat, d: nat, answer: seq<Option<Entry<K>>>, ghost t0: Table<K>, ghost walked: seq<K>)
      returns (ret: seq<Option<Entry<K>>>, ghost walked': seq<K>)
      requires Walking(t0, k, d, true, walked, answer)
      modifies this`table, Arrays()
      ensures Walking(t0, k, d + 1, false, walked', ret)
      ensures forall j :: 0 <= j < BUCKETS ==> table[j] == old(table)[j] || fresh(table[j].data)
    {
      if k + d < BUCKETS {
        ret, walked' := ScanRight(k, d, answer, t0, walked);
      } else {
        ret, walked' := answer, walked;
        SkipRight(k, d, ret, t0, walked');
      }
    }

    /** One iteration of the walk. */
    method ScanRing(k: nat, d: nat, answer: seq<Option<Entry<K>>>, ghost t0: Table<K>, ghost walked: seq<K>)
      returns (ret: seq<Option<Entry<K>>>, ghost walked': seq<K>)
      requires Walking(t0, k, d, false, walked, answer)
      modifies this`table, Arrays()
      ensures Walking(t0, k, d + 1, false, walked', ret)
      ensures forall j :: 0 <= j < BUCKETS ==> table[j] == old(table)[j] || fresh(table[j].data)
    {
      ret, walked' := LeftHalf(k, d, answer, t0, walked);
      ret, walked' := RightHalf(k, d, ret, t0, walked');
    }

    /** The loop of the walk: outwards from bucket `index` until the answer is full or both ends are passed. */
    method WalkLoop(index: nat, ghost t0: Table<K>) returns (ret: seq<Option<Entry<K>>>, ghost walked: seq<K>, ghost d: nat)
      requires Walking(t0, index, 0, false, [], [])
      modifies this`table, Arrays()
      ensures Walking(t0, index, d, false, walked, ret)
      ensures forall j :: 0 <= j < BUCKETS ==> table[j] == old(table)[j] || fresh(table[j].data)
      ensures |ret| >= BUCKET_SIZE || (d > index && index + d > BUCKETS)
    {
      ret, walked := [], [];
      var i := 0;
      while (index - i >= 0 || index + i <= BUCKETS) && |ret| < BUCKET_SIZE
        invariant Walking(t0, index, i, false, walked, ret) == true
        invariant forall j :: 0 <= j < BUCKETS ==> table[j] == old(table)[j] || fresh(table[j].data)
        decreases BUCKETS + 1 - i
      {
        ret, walked := ScanRing(index, i, ret, t0, walked);
        i := i + 1;
      }
      d := i;
    }

    ghost predicate Finished(t0: Table<K>, k: nat, ret: seq<Option<Entry<K>>>)
      reads this, Arrays()
    {
      && Slices() && |t0| == BUCKETS && k < BUCKETS
      && Buckets() == TouchTableAll(home, t0, ClosestTo(t0, k))
      && Answers(rows, links, ClosestTo(t0, k), ret)
    }

    /** The outward walk from a bucket that is not full. */
    method WalkOutwards(index: nat) returns (ret: seq<Option<Entry<K>>>)
      requires Slices() && index < BUCKETS && AllHomed(home, rows, Buckets()) && |Buckets()[index]| < BUCKET_SIZE
      modifies this`table, Arrays()
      ensures Slices() && forall i :: 0 <= i < BUCKETS ==> table[i] == old(table)[i] || fresh(table[i].data)
      ensures Finished(old(Buckets()), index, ret)
    {
      WalkBegins(index);
      ghost var t0 := Buckets();
      ghost var walked, d;
      ret, walked, d := WalkLoop(index, t0);
      WalkEnds(t0, index, d, walked, ret);
    }

    lemma WalkBegins(k: nat)
      requires Slices() && k < BUCKETS && AllHomed(home, rows, Buckets()) && |Buckets()[k]| < BUCKET_SIZE
      ensures Walking(Buckets(), k, 0, false, [], [])
    {
      WalkStart(BUCKET_SIZE, Buckets(), k);
    }

    /** When the loop ends, the answer is complete: it is full, or nothing is ahead. */
    lemma WalkEnds(t0: Table<K>, k: nat, d: nat, walked: seq<K>, ret: seq<Option<Entry<K>>>)
      requires Walking(t0, k, d, false, walked, ret)
      requires |ret| >= BUCKET_SIZE || (d > k && k + d > BUCKETS)
      ensures Finished(t0, k, ret)
    {
      if |ret| < BUCKET_SIZE { WalkEnd(BUCKET_SIZE, t0, k, d, walked); }
      FirstOfLonger(BUCKET_SIZE, walked, Ahead(BUCKET_SIZE, t0, k, d, false));
    }

    /** Answers with at most 20 entries: the own bucket if it is full, otherwise an outward walk. */
    method FindClosest(addr: K) returns (ret: seq<Option<Entry<K>>>)
      requires Valid()
      modifies this`table, Arrays()
      ensures Valid() && State() == Step(home, verify, old(State()), Op.FindClosest(addr))
      ensures forall i :: 0 <= i < BUCKETS ==> table[i] == old(table)[i] || fresh(table[i].data)
      ensures Answers(rows, links, ClosestTo(old(Buckets()), home(addr)), ret)
    {
      var index := home(addr);
      InvariantHomes(home, State());
      if table[index].len == BUCKET_SIZE {
        FullBucketAnswers(Buckets(), home(addr));
        ret := QueryAddresses(index);
      } else {
        assert WellFormedBucket(home, Buckets()[index], index);
        ret := WalkOutwards(index);
      }
      StepKeeps(home, verify, old(State()), Op.FindClosest(addr));
    }

    /** The total size of the routing table. */
    method TableLen() returns (size: nat)
      requires Slices()
      ensures size == Size(Buckets())
    {
      size := 0;
      for i := 0 to |table|
        invariant size == Count(Buckets(), 0, i)
      {
        size := size + table[i].len;
      }
    }
  }
}
