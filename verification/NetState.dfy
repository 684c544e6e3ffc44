/** The state of a peer's DHT as values (dht/netdb.go, dht/sql.go): the routing table, the rows of
    the `entry` table and the pairs of the `seed` table, and every run of its operations. Keys are
    peer addresses; module Dht instantiates them. */
module NetState {
  import opened Indices
  import opened Options
  import opened Recency
  import opened RoutingTable
  import opened Closest

  /** The columns an insert or update writes, other than the address and the list lengths. */
  datatype Info = Info(
    name: string, desc: string, publicAddress: string, port: int, publicKey: string, signature: string,
    collectionHash: string, postCount: int, updated: nat, seen: int)

  datatype Entry<K> = Entry(address: K, info: Info, seeds: seq<K>, seeding: seq<K>)

  datatype Row = Row(id: nat, info: Info)

  type Rows<K> = map<K, Row>

  /** `links` holds the pairs (seed, for) of row ids. */
  datatype State<K> = State(table: Table<K>, rows: Rows<K>, links: set<(nat, nat)>)

  /** A database as it is opened, with the rows and links of its file and nothing in the routing table. */
  function Opened<K>(rows: Rows<K>, links: set<(nat, nat)>): State<K> {
    State(EmptyTable(), rows, links)
  }

  /** `Entry.Verify`, which rests on Ed25519, is a parameter. */
  type Verifier<!K> = Entry<K> -> bool

  // ---------------------------------------------------------------- seed links

  /** The pairs (seed, for) an entry asks for: what it is seeding first, then its seeds. */
  function Wanted<K(==)>(e: Entry<K>): (ws: seq<(K, K)>)
    ensures |ws| == |e.seeding| + |e.seeds|
  {
    seq(|e.seeding|, i requires 0 <= i < |e.seeding| => (e.address, e.seeding[i])) +
    seq(|e.seeds|, i requires 0 <= i < |e.seeds| => (e.seeds[i], e.address))
  }

  predicate KnownPair<K(==)>(rows: Rows<K>, w: (K, K)) {
    w.0 in rows && w.1 in rows
  }

  function IdPair<K(==)>(rows: Rows<K>, w: (K, K)): (p: (nat, nat))
    requires KnownPair(rows, w)
  {
    (rows[w.0].id, rows[w.1].id)
  }

  /** Registers pairs one by one and stops at the first unknown peer. */
  function AddLinks<K(==)>(rows: Rows<K>, links: set<(nat, nat)>, ws: seq<(K, K)>): (r: set<(nat, nat)>)
    decreases |ws|
  {
    if ws == [] || !KnownPair(rows, ws[0]) then links else AddLinks(rows, links + {IdPair(rows, ws[0])}, ws[1..])
  }

  // ---------------------------------------------------------------- operations

  datatype Op<K> = Insert(entry: Entry<K>) | Query(address: K) | FindClosest(target: K) | InsertSeed(owner: K, seed: K)

  function InsertRow<K(==)>(s: State<K>, e: Entry<K>): (r: State<K>)
  {
    if e.address in s.rows then
      State(s.table, s.rows[e.address := Row(s.rows[e.address].id, e.info)], s.links)
    else
      State(s.table, NewRow(s.rows, e), AddLinks(NewRow(s.rows, e), s.links, Wanted(e)))
  }

  /** SQLite gives a fresh row the largest id plus one; ids start at one and rows are never deleted. */
  function NewRow<K(==)>(rows: Rows<K>, e: Entry<K>): (r: Rows<K>)
  {
    rows[e.address := Row(|rows| + 1, e.info)]
  }

  function WithTable<K>(s: State<K>, t: Table<K>): State<K> {
    State(t, s.rows, s.links)
  }

  function Step<K(==)>(home: K -> Index, verify: Verifier<K>, s: State<K>, op: Op<K>): (r: State<K>)
    requires |s.table| == BUCKETS
    ensures |r.table| == BUCKETS
  {
    match op
    case Insert(e) =>
      if verify(e) then InsertRow(WithTable(s, TouchTable(home, s.table, e.address)), e) else s
    case Query(a) =>
      if a in s.rows then WithTable(s, TouchTable(home, s.table, a)) else s
    case FindClosest(target) =>
      WithTable(s, TouchTableAll(home, s.table, ClosestTo(s.table, home(target))))
    case InsertSeed(owner, seed) =>
      State(s.table, s.rows, AddLinks(s.rows, s.links, [(seed, owner)]))
  }

  function Run<K(==)>(home: K -> Index, verify: Verifier<K>, start: State<K>, ops: seq<Op<K>>): (s: State<K>)
    requires |start.table| == BUCKETS
    ensures |s.table| == BUCKETS
  {
    if ops == [] then start else Step(home, verify, Run(home, verify, start, ops[..|ops| - 1]), ops[|ops| - 1])
  }

  // ---------------------------------------------------------------- what every operation keeps

  ghost predicate RowsOk<K(!new)>(rows: Rows<K>) {
    && (forall a :: a in rows ==> 1 <= rows[a].id <= |rows|)
    && (forall a, b :: a in rows && b in rows && rows[a].id == rows[b].id ==> a == b)
  }

  /** Every id of a link belongs to a row. */
  ghost predicate LinksOk<K(!new)>(rows: Rows<K>, links: set<(nat, nat)>) {
    forall p :: p in links ==> 1 <= p.0 <= |rows| && 1 <= p.1 <= |rows|
  }

  ghost predicate TableStored<K(!new)>(t: Table<K>, rows: Rows<K>) {
    forall i, a :: 0 <= i < |t| && a in t[i] ==> a in rows
  }

  ghost predicate Invariant<K(!new)>(home: K -> Index, s: State<K>) {
    && WellFormed(home, s.table)
    && TableStored(s.table, s.rows)
    && RowsOk(s.rows)
    && LinksOk(s.rows, s.links)
  }

  lemma TouchStored<K(!new)>(home: K -> Index, t: Table<K>, rows: Rows<K>, a: K)
    requires WellFormed(home, t) && TableStored(t, rows) && a in rows
    ensures TableStored(TouchTable(home, t, a), rows)
  {
    var k := home(a);
    assert WellFormedBucket(home, t[k], k);
    TouchKeeps(BUCKET_SIZE, t[k], a);
  }

  lemma {:induction false} TouchAllStored<K(!new)>(home: K -> Index, t: Table<K>, rows: Rows<K>, h: seq<K>)
    requires WellFormed(home, t) && TableStored(t, rows) && forall a :: a in h ==> a in rows
    ensures TableStored(TouchTableAll(home, t, h), rows)
  {
    if h != [] {
      var g := h[..|h| - 1];
      TouchAllStored(home, t, rows, g);
      TouchAllKeepsTable(home, t, g);
      TouchStored(home, TouchTableAll(home, t, g), rows, h[|h| - 1]);
    }
  }

  lemma ClosestStored<K(!new)>(home: K -> Index, t: Table<K>, rows: Rows<K>, target: K)
    requires WellFormed(home, t) && TableStored(t, rows)
    ensures forall a :: a in ClosestTo(t, home(target)) ==> a in rows
  {
    ClosestIsResident(home, t, home(target));
  }

  lemma {:induction false} AddLinksOk<K(!new)>(rows: Rows<K>, links: set<(nat, nat)>, ws: seq<(K, K)>)
    requires RowsOk(rows) && LinksOk(rows, links)
    ensures LinksOk(rows, AddLinks(rows, links, ws))
    decreases |ws|
  {
    if ws != [] && KnownPair(rows, ws[0]) {
      AddLinksOk(rows, links + {IdPair(rows, ws[0])}, ws[1..]);
    }
  }

  lemma NewRowOk<K(!new)>(rows: Rows<K>, a: K, info: Info)
    requires RowsOk(rows) && a !in rows
    ensures |rows[a := Row(|rows| + 1, info)]| == |rows| + 1
    ensures RowsOk(rows[a := Row(|rows| + 1, info)])
  {
    var r := rows[a := Row(|rows| + 1, info)];
    assert r.Keys == rows.Keys + {a};
  }

  lemma UpdatedRowOk<K(!new)>(rows: Rows<K>, a: K, info: Info)
    requires RowsOk(rows) && a in rows
    ensures |rows[a := Row(rows[a].id, info)]| == |rows|
    ensures RowsOk(rows[a := Row(rows[a].id, info)])
  {
    var r := rows[a := Row(rows[a].id, info)];
    assert r.Keys == rows.Keys;
  }

  lemma LinksOkStill<K(!new)>(rows: Rows<K>, more: Rows<K>, links: set<(nat, nat)>)
    requires LinksOk(rows, links) && |rows| <= |more|
    ensures LinksOk(more, links)
  {
  }

  lemma InsertRowKeeps<K(!new)>(s: State<K>, e: Entry<K>)
    requires RowsOk(s.rows) && LinksOk(s.rows, s.links)
    ensures RowsOk(InsertRow(s, e).rows) && LinksOk(InsertRow(s, e).rows, InsertRow(s, e).links)
    ensures InsertRow(s, e).table == s.table
    ensures forall a :: a in InsertRow(s, e).rows <==> a in s.rows || a == e.address
  {
    if e.address in s.rows {
      UpdatedRowOk(s.rows, e.address, e.info);
      LinksOkStill(s.rows, InsertRow(s, e).rows, s.links);
    } else {
      var rows := NewRow(s.rows, e);
      NewRowOk(s.rows, e.address, e.info);
      LinksOkStill(s.rows, rows, s.links);
      AddLinksOk(rows, s.links, Wanted(e));
    }
  }

  lemma InsertKeeps<K(!new)>(home: K -> Index, s: State<K>, e: Entry<K>)
    requires Invariant(home, s)
    ensures Invariant(home, InsertRow(WithTable(s, TouchTable(home, s.table, e.address)), e))
  {
    var t := TouchTable(home, s.table, e.address);
    TouchKeepsTable(home, s.table, e.address);
    InsertRowKeeps(WithTable(s, t), e);
    var rows := InsertRow(WithTable(s, t), e).rows;
    TouchStored(home, s.table, rows, e.address);
  }

  /** Every operation keeps the invariant. */
  lemma StepKeeps<K(!new)>(home: K -> Index, verify: Verifier<K>, s: State<K>, op: Op<K>)
    requires Invariant(home, s)
    ensures Invariant(home, Step(home, verify, s, op))
  {
    match op
    case Insert(e) =>
      InsertKeeps(home, s, e);
    case Query(a) =>
      if a in s.rows {
        TouchKeepsTable(home, s.table, a);
        TouchStored(home, s.table, s.rows, a);
      }
    case FindClosest(target) =>
      var h := ClosestTo(s.table, home(target));
      TouchAllKeepsTable(home, s.table, h);
      ClosestStored(home, s.table, s.rows, target);
      TouchAllStored(home, s.table, s.rows, h);
    case InsertSeed(owner, seed) =>
      AddLinksOk(s.rows, s.links, [(seed, owner)]);
  }

  /** In every reachable state: buckets are well formed, every resident address has a row, and ids are unique. */
  lemma {:induction false} RunKeeps<K(!new)>(home: K -> Index, verify: Verifier<K>, start: State<K>, ops: seq<Op<K>>)
    requires Invariant(home, start)
    ensures Invariant(home, Run(home, verify, start, ops))
  {
    if ops != [] {
      RunKeeps(home, verify, start, ops[..|ops| - 1]);
      StepKeeps(home, verify, Run(home, verify, start, ops[..|ops| - 1]), ops[|ops| - 1]);
    }
  }

  /** Every file whose ids count up from one and whose links are between its rows can be started from. */
  lemma OpenedKeeps<K(!new)>(home: K -> Index, rows: Rows<K>, links: set<(nat, nat)>)
    requires RowsOk(rows) && LinksOk(rows, links)
    ensures Invariant(home, Opened(rows, links))
  {
  }

  function Queries<K>(qs: seq<K>): seq<Op<K>> {
    seq(|qs|, i requires 0 <= i < |qs| => Op.Query(qs[i]))
  }

  /** Asking a database changes neither its rows nor its links, so the graph stays the same while it is walked;
      what changes is the routing table, by a touch for every question about a stored address. */
  lemma {:induction false} AskingOnlyTouches<K(!new)>(home: K -> Index, verify: Verifier<K>, s: State<K>, qs: seq<K>)
    requires |s.table| == BUCKETS && forall a :: a in qs ==> a in s.rows
    ensures Run(home, verify, s, Queries(qs)) == State(TouchTableAll(home, s.table, qs), s.rows, s.links)
  {
    if qs != [] {
      var front := qs[..|qs| - 1];
      AskingOnlyTouches(home, verify, s, front);
      assert Queries(qs)[..|qs| - 1] == Queries(front);
    }
  }

  lemma {:induction false} FillingStored<K(!new)>(t: Table<K>, n: nat, rows: Rows<K>)
    requires n <= |t| && TableStored(t, rows)
    ensures forall a :: a in Filling(t, n) ==> a in rows
  {
    if n > 0 {
      FillingStored(t, n - 1, rows);
      forall a | a in Backwards(t[n - 1]) ensures a in rows {
        var i :| 0 <= i < |t[n - 1]| && Backwards(t[n - 1])[i] == a;
        assert a in t[n - 1];
      }
    }
  }

  /** Every state that satisfies the invariant is reached from its rows and links by a run of queries. */
  lemma EveryStateOccurs<K(!new)>(home: K -> Index, verify: Verifier<K>, s: State<K>)
    requires Invariant(home, s)
    ensures Run(home, verify, Opened(s.rows, s.links), Queries(Filling(s.table, BUCKETS))) == s
  {
    FillingStored(s.table, BUCKETS, s.rows);
    WellFormedOccurs(home, s.table);
    AskingOnlyTouches(home, verify, Opened(s.rows, s.links), Filling(s.table, BUCKETS));
  }

  // ---------------------------------------------------------------- the buckets of a run

  /** The addresses one operation touches, in order. */
  function TouchedBy<K(==)>(home: K -> Index, verify: Verifier<K>, s: State<K>, op: Op<K>): (h: seq<K>)
    requires |s.table| == BUCKETS
  {
    match op
    case Insert(e) => if verify(e) then [e.address] else []
    case Query(a) => if a in s.rows then [a] else []
    case FindClosest(target) => ClosestTo(s.table, home(target))
    case InsertSeed(_, _) => []
  }

  /** Verified inserts, query hits and the answers of FindClosest, in the order they happened. */
  function Touched<K(==)>(home: K -> Index, verify: Verifier<K>, start: State<K>, ops: seq<Op<K>>): (h: seq<K>)
    requires |start.table| == BUCKETS
  {
    if ops == [] then []
    else
      Touched(home, verify, start, ops[..|ops| - 1]) +
      TouchedBy(home, verify, Run(home, verify, start, ops[..|ops| - 1]), ops[|ops| - 1])
  }

  lemma StepTable<K(!new)>(home: K -> Index, verify: Verifier<K>, s: State<K>, op: Op<K>)
    requires |s.table| == BUCKETS
    ensures Step(home, verify, s, op).table == TouchTableAll(home, s.table, TouchedBy(home, verify, s, op))
  {
    var h := TouchedBy(home, verify, s, op);
    if |h| == 1 {
      assert h[..0] == [];
      assert TouchTableAll(home, s.table, h) == TouchTable(home, TouchTableAll(home, s.table, h[..0]), h[0]);
    }
  }

  /** `a` leads its bucket. */
  ghost predicate Leads<K(!new)>(home: K -> Index, t: Table<K>, a: K) {
    |t| == BUCKETS && t[home(a)] != [] && t[home(a)][0] == a
  }

  /** A verified insert and a query that finds its address leave that address in front of its bucket; an insert
      that does not verify and a query that finds nothing leave everything as it is. */
  lemma StepLeads<K(!new)>(home: K -> Index, verify: Verifier<K>, s: State<K>, e: Entry<K>, a: K)
    requires |s.table| == BUCKETS
    ensures var r := Step(home, verify, s, Op.Insert(e)); if verify(e) then Leads(home, r.table, e.address) else r == s
    ensures var r := Step(home, verify, s, Op.Query(a)); if a in s.rows then Leads(home, r.table, a) else r == s
  {
  }

  lemma {:induction false} RunTable<K(!new)>(home: K -> Index, verify: Verifier<K>, start: State<K>, ops: seq<Op<K>>)
    requires |start.table| == BUCKETS
    ensures Run(home, verify, start, ops).table == TouchTableAll(home, start.table, Touched(home, verify, start, ops))
  {
    if ops != [] {
      var front := ops[..|ops| - 1];
      var s := Run(home, verify, start, front);
      RunTable(home, verify, start, front);
      StepTable(home, verify, s, ops[|ops| - 1]);
      TouchTableAllConcat(home, start.table, Touched(home, verify, start, front), TouchedBy(home, verify, s, ops[|ops| - 1]));
    }
  }

  /** After every run, each bucket holds the first 20 of the distinct addresses with its index,
      ordered by most recent touch. */
  lemma RunBucketIsMostRecent<K(!new)>(home: K -> Index, verify: Verifier<K>, start: State<K>, ops: seq<Op<K>>, i: nat)
    requires i < BUCKETS && start.table == EmptyTable()
    ensures Run(home, verify, start, ops).table[i] ==
            First(BUCKET_SIZE, Recent(OfBucket(home, Touched(home, verify, start, ops), i)))
  {
    RunTable(home, verify, start, ops);
    BucketHoldsMostRecent(home, Touched(home, verify, start, ops), i);
  }

  // ---------------------------------------------------------------- the rows of a run

  /** What the last verified insert for an address wrote. */
  function LastInsert<K(==)>(verify: Verifier<K>, ops: seq<Op<K>>, a: K): (r: Option<Info>)
  {
    if ops == [] then None
    else
      var op := ops[|ops| - 1];
      if Writes(verify, op, a) then Some(op.entry.info)
      else LastInsert(verify, ops[..|ops| - 1], a)
  }

  predicate Writes<K(==)>(verify: Verifier<K>, op: Op<K>, a: K) {
    op.Insert? && verify(op.entry) && op.entry.address == a
  }

  lemma StepRows<K(!new)>(home: K -> Index, verify: Verifier<K>, s: State<K>, op: Op<K>, a: K)
    requires |s.table| == BUCKETS
    ensures var r := Step(home, verify, s, op).rows;
            if Writes(verify, op, a) then a in r && r[a].info == op.entry.info
            else (a in r <==> a in s.rows) && (a in r ==> r[a].info == s.rows[a].info)
  {
  }

  /** After every run, an address has a row exactly when it had one at the start or was inserted, and the row
      holds what its last verified insert wrote, or what it held at the start; rejected inserts, queries
      and walks change no row. */
  lemma {:induction false} RunRows<K(!new)>(home: K -> Index, verify: Verifier<K>, start: State<K>, ops: seq<Op<K>>, a: K)
    requires |start.table| == BUCKETS
    ensures var rows, last := Run(home, verify, start, ops).rows, LastInsert(verify, ops, a);
            && (a in rows <==> a in start.rows || last.Some?)
            && (a in rows ==> rows[a].info == if last.Some? then last.value else start.rows[a].info)
  {
    if ops != [] {
      var front := ops[..|ops| - 1];
      RunRows(home, verify, start, front, a);
      StepRows(home, verify, Run(home, verify, start, front), ops[|ops| - 1], a);
    }
  }

  // ---------------------------------------------------------------- the seed relation of a run

  /** `seed` is registered as a seed for `owner`. */
  ghost predicate IsSeed<K(!new)>(s: State<K>, seed: K, owner: K) {
    seed in s.rows && owner in s.rows && (s.rows[seed].id, s.rows[owner].id) in s.links
  }

  /** A sequence lists the elements of a set, each once. */
  ghost predicate Lists<K>(s: seq<K>, all: set<K>) {
    if s == [] then all == {}
    else s[|s| - 1] in all && Lists(s[..|s| - 1], all - {s[|s| - 1]})
  }

  lemma {:induction false} ListsMembers<K(!new)>(s: seq<K>, all: set<K>)
    requires Lists(s, all)
    ensures Distinct(s) && forall a :: a in s <==> a in all
  {
    if s != [] {
      var front, last := s[..|s| - 1], s[|s| - 1];
      ListsMembers(front, all - {last});
      assert s == front + [last];
    }
  }

  /** The seeds of the row `id`, and what it is seeding: the two joins of the seed table. */
  function SeedsOf<K(==)>(rows: Rows<K>, links: set<(nat, nat)>, id: nat): (r: set<K>) {
    set a | a in rows && (rows[a].id, id) in links
  }

  function SeedingOf<K(==)>(rows: Rows<K>, links: set<(nat, nat)>, id: nat): (r: set<K>) {
    set a | a in rows && (id, rows[a].id) in links
  }

  /** An entry as a query rebuilds it: the scalar fields of its row, and its seeds and seedings from the links. */
  ghost predicate Stored<K(!new)>(rows: Rows<K>, links: set<(nat, nat)>, e: Entry<K>) {
    && e.address in rows && e.info == rows[e.address].info
    && Lists(e.seeds, SeedsOf(rows, links, rows[e.address].id))
    && Lists(e.seeding, SeedingOf(rows, links, rows[e.address].id))
  }

  /** Entries for exactly these addresses, in this order, none missing. */
  ghost predicate Answers<K(!new)>(rows: Rows<K>, links: set<(nat, nat)>, h: seq<K>, es: seq<Option<Entry<K>>>) {
    && |es| == |h|
    && forall i :: 0 <= i < |es| ==> es[i].Some? && es[i].value.address == h[i] && Stored(rows, links, es[i].value)
  }

  /** Seeds and seedings of stored entries are two views of one relation. */
  lemma SeedsMirrorSeeding<K(!new)>(s: State<K>, x: Entry, y: Entry)
    requires Stored(s.rows, s.links, x) && Stored(s.rows, s.links, y)
    ensures y.address in x.seeds <==> x.address in y.seeding
    ensures y.address in x.seeds <==> IsSeed(s, y.address, x.address)
  {
    ListsMembers(x.seeds, SeedsOf(s.rows, s.links, s.rows[x.address].id));
    ListsMembers(y.seeding, SeedingOf(s.rows, s.links, s.rows[y.address].id));
  }

  /** The number of leading pairs whose peers are both known. */
  function KnownPrefix<K(==)>(rows: Rows<K>, ws: seq<(K, K)>): (n: nat)
    ensures n <= |ws|
    ensures forall i :: 0 <= i < n ==> KnownPair(rows, ws[i])
    ensures n < |ws| ==> !KnownPair(rows, ws[n])
  {
    if ws == [] || !KnownPair(rows, ws[0]) then 0 else 1 + KnownPrefix(rows, ws[1..])
  }

  lemma {:induction false} AddLinksExact<K(!new)>(rows: Rows<K>, links: set<(nat, nat)>, ws: seq<(K, K)>, p: (nat, nat))
    ensures p in AddLinks(rows, links, ws) <==>
            p in links || exists i :: 0 <= i < KnownPrefix(rows, ws) && p == IdPair(rows, ws[i])
    decreases |ws|
  {
    if ws != [] && KnownPair(rows, ws[0]) {
      AddLinksExact(rows, links + {IdPair(rows, ws[0])}, ws[1..], p);
      if i :| 0 <= i < KnownPrefix(rows, ws) && p == IdPair(rows, ws[i]) {
        assert i > 0 ==> p == IdPair(rows, ws[1..][i - 1]);
      }
    }
  }

  /** The first insert of an address adds exactly the pairs it asks for before the first unknown
      peer, what it is seeding before its seeds. */
  lemma FirstInsertLinks<K(!new)>(s: State<K>, e: Entry<K>, seed: K, owner: K)
    requires RowsOk(s.rows) && LinksOk(s.rows, s.links) && e.address !in s.rows
    ensures var n := KnownPrefix(InsertRow(s, e).rows, Wanted(e));
            IsSeed(InsertRow(s, e), seed, owner) <==>
            IsSeed(s, seed, owner) || (exists i :: 0 <= i < n && Wanted(e)[i] == (seed, owner))
  {
    var rows, ws := NewRow(s.rows, e), Wanted(e);
    NewRowOk(s.rows, e.address, e.info);
    var n := KnownPrefix(rows, ws);
    assert forall i :: 0 <= i < n ==> ws[i].0 in rows && ws[i].1 in rows;
    if seed in rows && owner in rows {
      var p := (rows[seed].id, rows[owner].id);
      AddLinksExact(rows, s.links, ws, p);
      if i :| 0 <= i < n && p == IdPair(rows, ws[i]) {
        assert ws[i].0 == seed && ws[i].1 == owner;
      }
      if i :| 0 <= i < n && ws[i] == (seed, owner) {
        assert p == IdPair(rows, ws[i]);
      }
    }
  }

  /** The number of leading addresses that have rows. */
  function KnownPeers<K(==)>(rows: Rows<K>, ks: seq<K>): (n: nat)
    ensures n <= |ks|
    ensures forall i :: 0 <= i < n ==> ks[i] in rows
    ensures n < |ks| ==> ks[n] !in rows
  {
    if ks == [] || ks[0] !in rows then 0 else 1 + KnownPeers(rows, ks[1..])
  }

  lemma PrefixEnds<K(!new)>(rows: Rows<K>, ws: seq<(K, K)>, n: nat)
    requires n <= |ws| && forall i :: 0 <= i < n ==> KnownPair(rows, ws[i])
    requires n < |ws| ==> !KnownPair(rows, ws[n])
    ensures KnownPrefix(rows, ws) == n
  {
  }

  /** How much of what an entry asks for is known: a part of what it is seeding, or all that and a part of its seeds. */
  lemma KnownOfWanted<K(!new)>(rows: Rows<K>, e: Entry<K>)
    requires e.address in rows
    ensures var n := KnownPeers(rows, e.seeding);
            KnownPrefix(rows, Wanted(e)) == if n < |e.seeding| then n else n + KnownPeers(rows, e.seeds)
  {
    var ws, k := Wanted(e), |e.seeding|;
    assert forall i :: 0 <= i < k ==> ws[i] == (e.address, e.seeding[i]);
    assert forall i :: k <= i < |ws| ==> ws[i] == (e.seeds[i - k], e.address);
    var n := KnownPeers(rows, e.seeding);
    PrefixEnds(rows, ws, if n < k then n else k + KnownPeers(rows, e.seeds));
  }

  /** The pairs a first insert registers: the entry as a seed for what it is seeding, up to the first unknown peer,
      and if there is none there, its seeds as seeds for the entry, up to the first unknown one. */
  ghost predicate Registers<K(!new)>(rows: Rows<K>, e: Entry<K>, seed: K, owner: K) {
    || (seed == e.address && owner in e.seeding[..KnownPeers(rows, e.seeding)])
    || (owner == e.address && KnownPeers(rows, e.seeding) == |e.seeding| && seed in e.seeds[..KnownPeers(rows, e.seeds)])
  }

  lemma WantedRegisters<K(!new)>(rows: Rows<K>, e: Entry<K>, seed: K, owner: K)
    requires e.address in rows
    ensures (exists i :: 0 <= i < KnownPrefix(rows, Wanted(e)) && Wanted(e)[i] == (seed, owner)) <==> Registers(rows, e, seed, owner)
  {
    KnownOfWanted(rows, e);
    var ws, n, k := Wanted(e), KnownPrefix(rows, Wanted(e)), |e.seeding|;
    if i :| 0 <= i < n && ws[i] == (seed, owner) {
      if i < k {
        assert e.seeding[..KnownPeers(rows, e.seeding)][i] == owner;
      } else {
        assert e.seeds[..KnownPeers(rows, e.seeds)][i - k] == seed;
      }
    }
    if seed == e.address && owner in e.seeding[..KnownPeers(rows, e.seeding)] {
      var i :| 0 <= i < KnownPeers(rows, e.seeding) && e.seeding[i] == owner;
      assert ws[i] == (seed, owner);
    } else if Registers(rows, e, seed, owner) {
      var i :| 0 <= i < KnownPeers(rows, e.seeds) && e.seeds[i] == seed;
      assert ws[k + i] == (seed, owner);
    }
  }

  /** After the verified insert of an address without a row, a peer is a seed for another exactly when it was, or
      the entry's own lists say so before the first unknown peer. */
  lemma InsertedLinks<K(!new)>(home: K -> Index, verify: Verifier<K>, s: State<K>, e: Entry<K>, seed: K, owner: K)
    requires Invariant(home, s) && verify(e) && e.address !in s.rows
    ensures var r := Step(home, verify, s, Op.Insert(e));
            IsSeed(r, seed, owner) <==> IsSeed(s, seed, owner) || Registers(r.rows, e, seed, owner)
  {
    var t := WithTable(s, TouchTable(home, s.table, e.address));
    FirstInsertLinks(t, e, seed, owner);
    WantedRegisters(InsertRow(t, e).rows, e, seed, owner);
    assert IsSeed(t, seed, owner) <==> IsSeed(s, seed, owner);
  }

  /** A new entry comes back with the fields and lists it was inserted with when every peer it names has a row. */
  lemma InsertedEntryComesBack<K(!new)>(home: K -> Index, verify: Verifier<K>, s: State<K>, e: Entry<K>, x: Entry<K>, a: K)
    requires Invariant(home, s) && verify(e) && e.address !in s.rows
    requires forall k :: k in e.seeding + e.seeds ==> k in s.rows
    requires var r := Step(home, verify, s, Op.Insert(e)); Stored(r.rows, r.links, x) && x.address == e.address
    ensures x.info == e.info && (a in x.seeding <==> a in e.seeding) && (a in x.seeds <==> a in e.seeds)
  {
    var r := Step(home, verify, s, Op.Insert(e));
    StepKeeps(home, verify, s, Op.Insert(e));
    StepRows(home, verify, s, Op.Insert(e), e.address);
    ListsMembers(x.seeds, SeedsOf(r.rows, r.links, r.rows[x.address].id));
    ListsMembers(x.seeding, SeedingOf(r.rows, r.links, r.rows[x.address].id));
    InsertedLinks(home, verify, s, e, e.address, a);
    InsertedLinks(home, verify, s, e, a, e.address);
    AllKnown(r.rows, e.seeding);
    AllKnown(r.rows, e.seeds);
  }

  lemma AllKnown<K(!new)>(rows: Rows<K>, ks: seq<K>)
    requires forall k :: k in ks ==> k in rows
    ensures KnownPeers(rows, ks) == |ks| && ks[..|ks|] == ks
  {
  }

  /** Registering a seed adds that pair, if both peers are known, and no other. */
  lemma SeedInserted<K(!new)>(home: K -> Index, verify: Verifier<K>, s: State<K>, owner: K, seed: K, y: K, x: K)
    requires |s.table| == BUCKETS && RowsOk(s.rows)
    ensures IsSeed(Step(home, verify, s, Op.InsertSeed(owner, seed)), y, x) <==>
            IsSeed(s, y, x) || (y == seed && x == owner && seed in s.rows && owner in s.rows)
  {
    if y in s.rows && x in s.rows {
      var p := (s.rows[y].id, s.rows[x].id);
      AddLinksExact(s.rows, s.links, [(seed, owner)], p);
      assert KnownPair(s.rows, (seed, owner)) && p == IdPair(s.rows, (seed, owner)) ==> y == seed && x == owner;
    }
  }

  /** An insert of a stored address leaves the seed relation as it is. */
  lemma LaterInsertLinks<K(!new)>(s: State<K>, e: Entry<K>, seed: K, owner: K)
    requires e.address in s.rows
    ensures IsSeed(InsertRow(s, e), seed, owner) <==> IsSeed(s, seed, owner)
  {
  }

  lemma StepGrows<K(!new)>(home: K -> Index, verify: Verifier<K>, s: State<K>, op: Op<K>, seed: K, owner: K)
    requires Invariant(home, s) && IsSeed(s, seed, owner)
    ensures IsSeed(Step(home, verify, s, op), seed, owner)
  {
    match op
    case Insert(e) =>
      var s' := WithTable(s, TouchTable(home, s.table, e.address));
      assert IsSeed(s', seed, owner);
      if e.address in s.rows {
        LaterInsertLinks(s', e, seed, owner);
      } else {
        FirstInsertLinks(s', e, seed, owner);
      }
    case InsertSeed(o, y) =>
      AddLinksExact(s.rows, s.links, [(y, o)], (s.rows[seed].id, s.rows[owner].id));
    case _ =>
  }

  /** Over a run the seed relation only grows: what holds after a prefix holds at the end. */
  lemma {:induction false} RunGrows<K(!new)>(home: K -> Index, verify: Verifier<K>, start: State<K>, ops: seq<Op<K>>, m: nat, seed: K, owner: K)
    requires Invariant(home, start) && m <= |ops| && IsSeed(Run(home, verify, start, ops[..m]), seed, owner)
    ensures IsSeed(Run(home, verify, start, ops), seed, owner)
  {
    if m == |ops| {
      assert ops[..m] == ops;
    } else {
      var front := ops[..|ops| - 1];
      assert front[..m] == ops[..m];
      RunGrows(home, verify, start, front, m, seed, owner);
      RunKeeps(home, verify, start, front);
      StepGrows(home, verify, Run(home, verify, start, front), ops[|ops| - 1], seed, owner);
    }
  }
}
