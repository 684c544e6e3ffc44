/** The network map (netmap.go): a recursive walk along `Seeding` that shares two mutable visited sets. */
module NetMap {
  import opened Addresses
  import opened NetState

  datatype MapNode<K> = MapNode(address: K, name: string)

  datatype MapLink<K> = MapLink(source: K, target: K)

  /** The stored entries, as database queries return them. */
  type Graph<K> = map<K, Entry<K>>

  /** Every row answers under its own address, and everything it is seeding has a row. */
  ghost predicate Closed<K>(db: Graph<K>) {
    forall a :: a in db ==> db[a].address == a && SeedingKnown(db, db[a])
  }

  ghost predicate SeedingKnown<K>(db: Graph<K>, e: Entry<K>) {
    forall s :: s in e.seeding ==> s in db
  }

  /** The entries a database returns for all its rows form a closed graph, whatever links it holds. */
  lemma StoredGraphIsClosed<K(!new)>(s: State<K>, db: Graph<K>)
    requires db.Keys == s.rows.Keys
    requires forall a :: a in db ==> db[a].address == a && Stored(s.rows, s.links, db[a])
    ensures Closed(db)
  {
    forall a, x | a in db && x in db[a].seeding ensures x in db {
      ListsMembers(db[a].seeding, SeedingOf(s.rows, s.links, s.rows[a].id));
    }
  }

  // ---------------------------------------------------------------- reachability

  ghost predicate IsPath<K>(db: Graph<K>, roots: seq<K>, p: seq<K>) {
    p != [] && if |p| == 1 then p[0] in roots
               else IsPath(db, roots, p[..|p| - 1]) && p[|p| - 2] in db && p[|p| - 1] in db[p[|p| - 2]].seeding
  }

  /** A chain of `Seeding` entries leads from one of `roots` to `a`. */
  ghost predicate Reachable<K(!new)>(db: Graph<K>, roots: seq<K>, a: K) {
    exists p :: IsPath(db, roots, p) && p[|p| - 1] == a
  }

  lemma RootReachable<K(!new)>(db: Graph<K>, roots: seq<K>, a: K)
    requires a in roots
    ensures Reachable(db, roots, a)
  {
    assert IsPath(db, roots, [a]);
  }

  lemma ReachableThrough<K(!new)>(db: Graph<K>, roots: seq<K>, a: K, b: K)
    requires a in roots && a in db && Reachable(db, db[a].seeding, b)
    ensures Reachable(db, roots, b)
  {
    var p :| IsPath(db, db[a].seeding, p) && p[|p| - 1] == b;
    PathPrepend(db, roots, a, p);
  }

  lemma {:induction false} PathPrepend<K(!new)>(db: Graph<K>, roots: seq<K>, a: K, p: seq<K>)
    requires a in roots && a in db && IsPath(db, db[a].seeding, p)
    ensures IsPath(db, roots, [a] + p)
  {
    var q := [a] + p;
    if |p| == 1 {
      assert q[..1] == [a];
    } else {
      PathPrepend(db, roots, a, p[..|p| - 1]);
      assert q[..|q| - 1] == [a] + p[..|p| - 1];
    }
  }

  lemma {:induction false} PathInside<K(!new)>(db: Graph<K>, roots: seq<K>, p: seq<K>, inside: set<K>)
    requires IsPath(db, roots, p)
    requires forall a :: a in roots ==> a in inside
    requires forall a, s :: a in inside && a in db && s in db[a].seeding ==> s in inside
    ensures p[|p| - 1] in inside
  {
    if |p| > 1 {
      PathInside(db, roots, p[..|p| - 1], inside);
    }
  }

  // ---------------------------------------------------------------- the visited sets

  /** The keys of `currentNodes` and `currentLinks`; a link key is (source, target). */
  datatype Marks<K> = Marks(nodes: set<K>, links: set<(K, K)>)

  /** Every source of a registered link is a registered node, and every registered node is stored. */
  ghost predicate Consistent<K>(db: Graph<K>, m: Marks<K>) {
    m.nodes <= db.Keys && forall k :: k in m.links ==> k.0 in m.nodes
  }

  /** All links of an entry are registered. */
  ghost predicate Complete<K>(m: Marks<K>, e: Entry<K>) {
    forall s :: s in e.seeding ==> (s, e.address) in m.links
  }

  /** The links of an entry's first so many peers are registered. */
  ghost predicate CompleteUpTo<K>(m: Marks<K>, e: Entry<K>, n: nat) {
    n <= |e.seeding| && forall j :: 0 <= j < n ==> (e.seeding[j], e.address) in m.links
  }

  /** All registered nodes but those still being walked are complete. */
  ghost predicate CompleteExcept<K>(db: Graph<K>, m: Marks<K>, busy: set<K>) {
    forall a :: a in m.nodes && a !in busy && a in db ==> Complete(m, db[a])
  }

  /** A link into `e`, or into one of `nodes`, from a peer it is seeding. */
  ghost predicate LinkInto<K>(db: Graph<K>, e: Entry<K>, nodes: set<K>, k: (K, K)) {
    || (k.1 == e.address && k.0 in e.seeding)
    || (k.1 in nodes && k.1 in db && k.0 in db[k.1].seeding)
  }

  /** What is registered between `m` and `n` belongs to the walk from `e`. */
  ghost predicate Grown<K(!new)>(db: Graph<K>, e: Entry<K>, m: Marks<K>, n: Marks<K>) {
    && m.nodes <= n.nodes && m.links <= n.links
    && (forall a :: a in n.nodes - m.nodes ==> Reachable(db, e.seeding, a))
    && (forall k :: k in n.links - m.links ==> LinkInto(db, e, n.nodes - m.nodes, k))
  }

  lemma GrownTransitive<K(!new)>(db: Graph<K>, e: Entry<K>, l: Marks<K>, m: Marks<K>, n: Marks<K>)
    requires Grown(db, e, l, m) && Grown(db, e, m, n)
    ensures Grown(db, e, l, n)
  {
    forall a | a in n.nodes - l.nodes ensures Reachable(db, e.seeding, a) {
      assert a in m.nodes - l.nodes || a in n.nodes - m.nodes;
    }
    forall k | k in n.links - l.links ensures LinkInto(db, e, n.nodes - l.nodes, k) {
      assert k in m.links - l.links || k in n.links - m.links;
    }
  }

  /** The walk from `e` registers the link from `s`, the node `s`, and what the walk from `s` registers. */
  lemma GrownThrough<K(!new)>(db: Graph<K>, e: Entry<K>, s: K, m: Marks<K>, n: Marks<K>)
    requires Closed(db) && s in e.seeding && s in db && s !in m.nodes
    requires Grown(db, db[s], Marks(m.nodes + {s}, m.links + {(s, e.address)}), n)
    ensures Grown(db, e, m, n)
  {
    forall a | a in n.nodes - m.nodes ensures Reachable(db, e.seeding, a) {
      if a == s {
        RootReachable(db, e.seeding, s);
      } else {
        ReachableThrough(db, e.seeding, s, a);
      }
    }
    forall k | k in n.links - m.links ensures LinkInto(db, e, n.nodes - m.nodes, k) {
      if k != (s, e.address) {
        assert LinkInto(db, db[s], n.nodes - (m.nodes + {s}), k);
      }
    }
  }

  // ---------------------------------------------------------------- what a walk lists

  function AddressesOf<K>(nodes: seq<MapNode<K>>): (r: seq<K>)
    ensures |r| == |nodes|
  {
    seq(|nodes|, i requires 0 <= i < |nodes| => nodes[i].address)
  }

  function KeysOf<K>(links: seq<MapLink<K>>): (r: seq<(K, K)>)
    ensures |r| == |links|
  {
    seq(|links|, i requires 0 <= i < |links| => (links[i].source, links[i].target))
  }

  ghost predicate NamedAsStored<K>(db: Graph<K>, nodes: seq<MapNode<K>>) {
    forall n :: n in nodes ==> n.address in db && n.name == db[n.address].info.name
  }

  /** The lists hold exactly what is registered between `m` and `n`, each once. */
  ghost predicate Listed<K>(db: Graph<K>, m: Marks<K>, n: Marks<K>, nodes: seq<MapNode<K>>, links: seq<MapLink<K>>) {
    && m.nodes <= n.nodes && m.links <= n.links
    && NamedAsStored(db, nodes)
    && multiset(AddressesOf(nodes)) == multiset(n.nodes - m.nodes)
    && multiset(KeysOf(links)) == multiset(n.links - m.links)
  }

  lemma Union<T>(x: set<T>, y: set<T>, z: set<T>)
    requires x <= y <= z
    ensures multiset(z - x) == multiset(y - x) + multiset(z - y)
  {
  }

  lemma ListedConcat<K>(db: Graph<K>, l: Marks<K>, m: Marks<K>, n: Marks<K>,
                        ns: seq<MapNode<K>>, ls: seq<MapLink<K>>, ns': seq<MapNode<K>>, ls': seq<MapLink<K>>)
    requires Listed(db, l, m, ns, ls) && Listed(db, m, n, ns', ls')
    ensures Listed(db, l, n, ns + ns', ls + ls')
  {
    Union(l.nodes, m.nodes, n.nodes);
    Union(l.links, m.links, n.links);
    assert AddressesOf(ns + ns') == AddressesOf(ns) + AddressesOf(ns');
    assert KeysOf(ls + ls') == KeysOf(ls) + KeysOf(ls');
  }

  lemma ListedNothing<K>(db: Graph<K>, m: Marks<K>)
    ensures Listed(db, m, m, [], [])
  {
    assert AddressesOf<K>([]) == [] && KeysOf<K>([]) == [];
    assert m.nodes - m.nodes == {} && m.links - m.links == {};
  }

  lemma ListedLink<K>(db: Graph<K>, m: Marks<K>, s: K, t: K)
    requires (s, t) !in m.links
    ensures Listed(db, m, Marks(m.nodes, m.links + {(s, t)}), [], [MapLink(s, t)])
  {
    assert m.nodes - m.nodes == {} && AddressesOf<K>([]) == [];
    assert m.links + {(s, t)} - m.links == {(s, t)};
    assert KeysOf([MapLink(s, t)]) == [(s, t)];
  }

  lemma ListedNode<K>(db: Graph<K>, m: Marks<K>, s: K)
    requires s in db && s !in m.nodes
    ensures Listed(db, m, Marks(m.nodes + {s}, m.links), [MapNode(s, db[s].info.name)], [])
  {
    assert m.nodes + {s} - m.nodes == {s};
    assert AddressesOf([MapNode(s, db[s].info.name)]) == [s];
    assert m.links - m.links == {} && KeysOf<K>([]) == [];
  }

  /** Every node is seeded for by the entry or by a node before it. */
  ghost predicate Rooted<K>(db: Graph<K>, e: Entry<K>, nodes: seq<MapNode<K>>) {
    forall i :: 0 <= i < |nodes| ==> Before(db, e, nodes[..i], nodes[i].address)
  }

  ghost predicate Before<K>(db: Graph<K>, e: Entry<K>, nodes: seq<MapNode<K>>, a: K) {
    a in e.seeding || exists j :: 0 <= j < |nodes| && nodes[j].address in db && a in db[nodes[j].address].seeding
  }

  lemma RootedConcat<K>(db: Graph<K>, e: Entry<K>, ns: seq<MapNode<K>>, ns': seq<MapNode<K>>)
    requires Rooted(db, e, ns) && Rooted(db, e, ns')
    ensures Rooted(db, e, ns + ns')
  {
    var all, k := ns + ns', |ns|;
    forall i | 0 <= i < |all| ensures Before(db, e, all[..i], all[i].address) {
      if i < k {
        assert all[..i] == ns[..i];
      } else {
        assert Before(db, e, ns'[..i - k], ns'[i - k].address);
        assert all[..i] == ns + ns'[..i - k];
        if j :| 0 <= j < i - k && ns'[j].address in db && all[i].address in db[ns'[j].address].seeding {
          assert all[..i][k + j] == ns'[j];
        }
      }
    }
  }

  lemma RootedThrough<K>(db: Graph<K>, e: Entry<K>, n: MapNode<K>, ns: seq<MapNode<K>>)
    requires n.address in e.seeding && n.address in db && Rooted(db, db[n.address], ns)
    ensures Rooted(db, e, [n] + ns)
  {
    var all := [n] + ns;
    forall i | 0 <= i < |all| ensures Before(db, e, all[..i], all[i].address) {
      if i > 0 {
        assert Before(db, db[n.address], ns[..i - 1], ns[i - 1].address);
        assert all[..i] == [n] + ns[..i - 1];
        assert all[..i][0] == n;
        if j :| 0 <= j < i - 1 && ns[j].address in db && all[i].address in db[ns[j].address].seeding {
          assert all[..i][j + 1] == ns[j];
        }
      }
    }
  }

  /** How many questions the walks from these nodes ask: one for every peer each is seeding. */
  ghost function Asks<K>(db: Graph<K>, nodes: seq<MapNode<K>>): nat {
    if nodes == [] then 0
    else (if nodes[0].address in db then |db[nodes[0].address].seeding| else 0) + Asks(db, nodes[1..])
  }

  lemma {:induction false} AsksConcat<K>(db: Graph<K>, ns: seq<MapNode<K>>, ns': seq<MapNode<K>>)
    ensures Asks(db, ns + ns') == Asks(db, ns) + Asks(db, ns')
  {
    if ns == [] {
      assert ns + ns' == ns';
    } else {
      assert (ns + ns')[1..] == ns[1..] + ns';
      AsksConcat(db, ns[1..], ns');
    }
  }

  // ---------------------------------------------------------------- the walk

  class Walker<K(!new,==)> {
    var currentNodes: set<K>
    var currentLinks: set<(K, K)>
    /** The addresses the database was asked for, in order. */
    var queried: seq<K>

    constructor ()
      ensures Now() == Marks({}, {}) && Asked() && queried == []
    {
      currentNodes, currentLinks, queried := {}, {}, [];
    }

    /** Exactly the registered nodes have been asked for. */
    ghost predicate Asked()
      reads this
    {
      forall a :: a in queried <==> a in currentNodes
    }

    ghost function Now(): (m: Marks<K>)
      reads this
    {
      Marks(currentNodes, currentLinks)
    }

    /** The closure over `entry`: registers the link from one peer it is seeding and, if the peer is new, walks from it. */
    method CreateMap(entry: Entry<K>, address: K, db: Graph<K>, ghost busy: set<K>)
      returns (nodes: seq<MapNode<K>>, links: seq<MapLink<K>>)
      requires Closed(db) && address in entry.seeding && address in db
      requires Asked() && Consistent(db, Now()) && CompleteExcept(db, Now(), busy)
      modifies this
      ensures Asked() && Consistent(db, Now()) && CompleteExcept(db, Now(), busy)
      ensures (address, entry.address) in currentLinks
      ensures Grown(db, entry, old(Now()), Now()) && Listed(db, old(Now()), Now(), nodes, links)
      ensures Rooted(db, entry, nodes) && |queried| == |old(queried)| + 1 + Asks(db, nodes)
      decreases db.Keys - currentNodes, 0
    {
      nodes, links := [], [];
      ListedNothing(db, Now());
      var e := db[address];
      queried := queried + [address];
      if (e.address, entry.address) in currentLinks {
        return;
      }
      ListedLink(db, Now(), address, entry.address);
      currentLinks := currentLinks + {(e.address, entry.address)};
      links := [MapLink(e.address, entry.address)];
      if e.address in currentNodes {
        return;
      }
      ListedNode(db, Now(), address);
      ListedConcat(db, old(Now()), Now(), Marks(currentNodes + {e.address}, currentLinks), [], links, [MapNode(e.address, e.info.name)], []);
      currentNodes := currentNodes + {e.address};
      nodes := [MapNode(e.address, e.info.name)];
      ghost var middle := Now();
      var n, l := CreateNetMap(e, db, busy + {e.address});
      GrownThrough(db, entry, address, old(Now()), Now());
      ListedConcat(db, old(Now()), middle, Now(), nodes, links, n, l);
      RootedThrough(db, entry, nodes[0], n);
      AsksConcat(db, nodes, n);
      nodes, links := nodes + n, links + l;
    }

    /** The walk from one entry: the entry itself unless its address is registered, then everything the walk registers. */
    method CreateNetMap(entry: Entry<K>, db: Graph<K>, ghost busy: set<K>)
      returns (nodes: seq<MapNode<K>>, links: seq<MapLink<K>>)
      requires Closed(db) && SeedingKnown(db, entry)
      requires Asked() && Consistent(db, Now()) && CompleteExcept(db, Now(), busy)
      modifies this
      ensures Asked() && Consistent(db, Now()) && CompleteExcept(db, Now(), busy) && Complete(Now(), entry)
      ensures Grown(db, entry, old(Now()), Now())
      ensures var head := if entry.address in old(currentNodes) then [] else [MapNode(entry.address, entry.info.name)];
              && head <= nodes && Listed(db, old(Now()), Now(), nodes[|head|..], links)
              && Rooted(db, entry, nodes[|head|..]) && |queried| == |old(queried)| + |entry.seeding| + Asks(db, nodes[|head|..])
      decreases db.Keys - currentNodes, 3
    {
      var head := [];
      if entry.address !in currentNodes {
        head := [MapNode(entry.address, entry.info.name)];
      }
      var rest;
      rest, links := WalkSeeding(entry, db, busy);
      nodes := head + rest;
      assert nodes[|head|..] == rest;
    }

    /** One round of the loop over what `entry` is seeding, given what the rounds before it listed. */
    method WalkNext(entry: Entry<K>, i: nat, db: Graph<K>, nodes: seq<MapNode<K>>, links: seq<MapLink<K>>, ghost start: Marks<K>, ghost asked: nat, ghost busy: set<K>)
      returns (nodes': seq<MapNode<K>>, links': seq<MapLink<K>>)
      requires i < |entry.seeding| && CompleteUpTo(Now(), entry, i)
      requires Closed(db) && SeedingKnown(db, entry)
      requires Asked() && Consistent(db, Now()) && CompleteExcept(db, Now(), busy)
      requires Grown(db, entry, start, Now()) && Listed(db, start, Now(), nodes, links)
      requires Rooted(db, entry, nodes) && |queried| == asked + i + Asks(db, nodes)
      modifies this
      ensures Asked() && Consistent(db, Now()) && CompleteExcept(db, Now(), busy) && CompleteUpTo(Now(), entry, i + 1)
      ensures old(currentNodes) <= currentNodes
      ensures Grown(db, entry, start, Now()) && Listed(db, start, Now(), nodes', links')
      ensures Rooted(db, entry, nodes') && |queried| == asked + i + 1 + Asks(db, nodes')
      decreases db.Keys - currentNodes, 1
    {
      ghost var before := Now();
      var n, l := CreateMap(entry, entry.seeding[i], db, busy);
      GrownTransitive(db, entry, start, before, Now());
      ListedConcat(db, start, before, Now(), nodes, links, n, l);
      RootedConcat(db, entry, nodes, n);
      AsksConcat(db, nodes, n);
      nodes', links' := nodes + n, links + l;
    }

    /** The loop over what `entry` is seeding. */
    method WalkSeeding(entry: Entry<K>, db: Graph<K>, ghost busy: set<K>)
      returns (nodes: seq<MapNode<K>>, links: seq<MapLink<K>>)
      requires Closed(db) && SeedingKnown(db, entry)
      requires Asked() && Consistent(db, Now()) && CompleteExcept(db, Now(), busy)
      modifies this
      ensures Asked() && Consistent(db, Now()) && CompleteExcept(db, Now(), busy) && Complete(Now(), entry)
      ensures Grown(db, entry, old(Now()), Now()) && Listed(db, old(Now()), Now(), nodes, links)
      ensures Rooted(db, entry, nodes) && |queried| == |old(queried)| + |entry.seeding| + Asks(db, nodes)
      decreases db.Keys - currentNodes, 2
    {
      nodes, links := [], [];
      ListedNothing(db, Now());
      for i := 0 to |entry.seeding|
        invariant Asked() && Consistent(db, Now()) && CompleteExcept(db, Now(), busy)
        invariant old(currentNodes) <= currentNodes
        invariant CompleteUpTo(Now(), entry, i)
        invariant Grown(db, entry, old(Now()), Now()) && Listed(db, old(Now()), Now(), nodes, links)
        invariant Rooted(db, entry, nodes) && |queried| == |old(queried)| + i + Asks(db, nodes)
      {
        nodes, links := WalkNext(entry, i, db, nodes, links, old(Now()), |old(queried)|, busy);
      }
    }
  }

  // ---------------------------------------------------------------- the map of a network

  /** All links of the walk from `e`: into `e`, and into every address it reaches. */
  function AllLinks<K(==)>(db: Graph<K>, e: Entry<K>, reached: set<K>): (r: set<(K, K)>) {
    (set s | s in e.seeding :: (s, e.address)) +
    (set t, s | t in reached && t in db && s in db[t].seeding :: (s, t))
  }

  /** When nothing is left to walk, the registered nodes are exactly what is reachable, and the links exactly theirs. */
  lemma WalkIsExact<K(!new)>(db: Graph<K>, e: Entry<K>, m: Marks<K>)
    requires Consistent(db, m) && CompleteExcept(db, m, {}) && Complete(m, e)
    requires Closed(db) && Grown(db, e, Marks({}, {}), m)
    ensures forall a :: a in m.nodes <==> Reachable(db, e.seeding, a)
    ensures m.links == AllLinks(db, e, m.nodes)
  {
    assert m.nodes - {} == m.nodes && m.links - {} == m.links;
    forall s | s in e.seeding ensures s in m.nodes {
      assert (s, e.address) in m.links;
    }
    forall a, s | a in m.nodes && a in db && s in db[a].seeding ensures (s, a) in m.links && s in m.nodes {
      assert Complete(m, db[a]);
      assert (s, db[a].address) in m.links;
    }
    forall a | Reachable(db, e.seeding, a) ensures a in m.nodes {
      var p :| IsPath(db, e.seeding, p) && p[|p| - 1] == a;
      PathInside(db, e.seeding, p, m.nodes);
    }
    forall k ensures k in m.links <==> k in AllLinks(db, e, m.nodes) {
      if k in m.links { assert LinkInto(db, e, m.nodes, k); }
    }
  }

  lemma {:induction false} LinkOf<K(!new)>(links: seq<MapLink<K>>, s: K, t: K)
    ensures MapLink(s, t) in links <==> (s, t) in KeysOf(links)
  {
    var keys := KeysOf(links);
    if MapLink(s, t) in links {
      var i :| 0 <= i < |links| && links[i] == MapLink(s, t);
      assert keys[i] == (s, t);
    }
    if (s, t) in keys {
      var i :| 0 <= i < |keys| && keys[i] == (s, t);
      assert links[i] == MapLink(s, t);
    }
  }

  /** There is a link from what an address is seeding to that address, for the root and every reached address. */
  lemma LinksListed<K(!new)>(db: Graph<K>, e: Entry<K>, reached: set<K>, links: seq<MapLink<K>>, s: K, t: K)
    requires multiset(KeysOf(links)) == multiset(AllLinks(db, e, reached))
    ensures MapLink(s, t) in links <==> (t == e.address && s in e.seeding) || (t in reached && t in db && s in db[t].seeding)
  {
    LinkOf(links, s, t);
    assert (s, t) in KeysOf(links) <==> (s, t) in multiset(KeysOf(links));
  }

  /** The map from `entry`: the root, then every address reachable along Seeding, each once and after one that
      leads to it; so the root is listed twice exactly when it is reachable from itself. No link is listed
      twice, and the links are those into the root and into every reachable address. The database is asked for
      the reachable addresses and no others, as often in all as the lists of the walked entries are long. */
  method MapFrom<K(!new,==)>(entry: Entry<K>, db: Graph<K>)
    returns (nodes: seq<MapNode<K>>, links: seq<MapLink<K>>, queried: seq<K>, ghost reached: set<K>)
    requires Closed(db) && SeedingKnown(db, entry)
    ensures forall a :: a in reached <==> Reachable(db, entry.seeding, a)
    ensures forall a :: a in queried <==> a in reached
    ensures nodes != [] && nodes[0] == MapNode(entry.address, entry.info.name) && NamedAsStored(db, nodes[1..])
    ensures multiset(AddressesOf(nodes[1..])) == multiset(reached)
    ensures multiset(KeysOf(links)) == multiset(AllLinks(db, entry, reached))
    ensures forall s, t :: MapLink(s, t) in links <==>
              (t == entry.address && s in entry.seeding) || (t in reached && t in db && s in db[t].seeding)
    ensures Rooted(db, entry, nodes[1..]) && |queried| == |entry.seeding| + Asks(db, nodes[1..])
  {
    var walker := new Walker<K>();
    nodes, links := walker.CreateNetMap(entry, db, {});
    queried, reached := walker.queried, walker.currentNodes;
    WalkIsExact(db, entry, walker.Now());
    assert reached - {} == reached && walker.currentLinks - {} == walker.currentLinks;
    forall s, t ensures MapLink(s, t) in links <==>
                        (t == entry.address && s in entry.seeding) || (t in reached && t in db && s in db[t].seeding) {
      LinksListed(db, entry, reached, links, s, t);
    }
  }

  /** Both endpoints of every link are listed as nodes. */
  lemma LinksHaveNodes<K(!new)>(db: Graph<K>, e: Entry<K>, reached: set<K>, k: (K, K))
    requires Closed(db) && k in AllLinks(db, e, reached)
    requires forall a :: a in reached <==> Reachable(db, e.seeding, a)
    ensures k.0 in reached && (k.1 in reached || k.1 == e.address)
  {
    if k.1 == e.address && k.0 in e.seeding {
      RootReachable(db, e.seeding, k.0);
    } else {
      var p :| IsPath(db, e.seeding, p) && p[|p| - 1] == k.1;
      var q := p + [k.0];
      assert q[..|q| - 1] == p;
      assert IsPath(db, e.seeding, q);
    }
  }

  /** The source keys a link by the source's bytes followed by the target's; twenty-byte addresses make
      that as good as the pair. */
  lemma LinkKeyIsInjective(s: Address, t: Address, s': Address, t': Address)
    requires s + t == s' + t'
    ensures s == s' && t == t'
  {
    assert s == (s + t)[..ADDRESS_SIZE] && t == (s + t)[ADDRESS_SIZE..];
    assert s' == (s' + t')[..ADDRESS_SIZE] && t' == (s' + t')[ADDRESS_SIZE..];
  }
}
