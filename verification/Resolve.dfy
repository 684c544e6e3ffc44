/** Resolving an address by asking peers (peermanager.go:354-465). What the network does is given by what
    comes of each contact, in the order they are made. */
module Resolve {
  import opened Indices
  import opened Options
  import opened Closest
  import opened NetState
  import opened NetDatabase

  const BUDGET := 6

  /** What a contacted peer answers: an entry, peers closer to the one asked for, or an error. The client's query
      (proto/client.go:219-244) never comes back with neither an entry nor an error, so the last two, which
      follow such an answer, are more than the code can meet. */
  datatype Answer<K> = QueryFailed | Hit(entry: Entry<K>) | ClosestFailed | Nearer(entries: seq<Entry<K>>)

  /** What comes of a contact. A new connection brings the peer's own entry. */
  datatype Contact<K> = Unreachable | Reached(handshake: Option<Entry<K>>, answer: Answer<K>)

  /** What comes of the contact with a number in the order they are made, with a peer, about an address. */
  type World<!K> = (nat, Entry<K>, K) -> Contact<K>

  /** What a step returns: an entry, an error, or neither. */
  datatype Result<K> = Resolved(entry: Entry<K>) | Nothing | RecursionLimit | Failed

  predicate IsHit<K>(c: Contact<K>) {
    c.Reached? && c.answer.Hit?
  }

  /** The contact delivered the entry that was looked for. */
  predicate Delivers<K(==)>(c: Contact<K>, addr: K) {
    IsHit(c) && c.answer.entry.address == addr
  }

  /** The contact named peers to go on with. */
  predicate Names<K>(c: Contact<K>) {
    c.Reached? && c.answer.Nearer? && c.answer.entries != []
  }

  /** What contacts insert: the peers that introduced themselves, in order. */
  function Introductions<K>(came: seq<Contact<K>>): (ops: seq<Op<K>>) {
    if came == [] then [] else
      Introductions(came[..|came| - 1]) +
      match came[|came| - 1]
      case Reached(Some(e), _) => [Op.Insert(e)]
      case _ => []
  }

  /** How many of the contacts named nobody to go on with. */
  function Ends<K>(came: seq<Contact<K>>): (n: nat) {
    if came == [] then 0 else Ends(came[..|came| - 1]) + if Names(came[|came| - 1]) then 0 else 1
  }

  /** The peer to ask next, after contacts that came to this: the first that the last one named, or else the first
      of the closest ones that no contact has been made for. */
  function Next<K>(closest: seq<Option<Entry<K>>>, came: seq<Contact<K>>): (e: Option<Entry<K>>) {
    if came != [] && Names(came[|came| - 1]) then Some(came[|came| - 1].answer.entries[0])
    else if Ends(came) < |closest| then closest[Ends(came)]
    else None
  }

  /** The peers asked, what came of it, and the number of times one was to be asked. */
  datatype Trace<K> = Trace(asked: seq<Entry<K>>, came: seq<Contact<K>>, attempts: nat)

  /** Each peer was the one to ask next, and what came is what the network does. */
  ghost predicate Follows<K(!new)>(world: World<K>, closest: seq<Option<Entry<K>>>, addr: K, asked: seq<Entry<K>>, came: seq<Contact<K>>) {
    && |came| == |asked|
    && (forall i: nat :: i < |asked| ==> came[i] == world(i, asked[i], addr))
    && (forall i :: 0 <= i < |asked| ==> Next(closest, came[..i]) == Some(asked[i]))
  }

  lemma FollowsOn<K(!new)>(world: World<K>, closest: seq<Option<Entry<K>>>, addr: K, asked: seq<Entry<K>>, came: seq<Contact<K>>, e: Entry<K>, c: Contact<K>)
    requires Follows(world, closest, addr, asked, came)
    requires Next(closest, came) == Some(e) && c == world(|asked|, e, addr)
    ensures Follows(world, closest, addr, asked + [e], came + [c])
  {
    var cs := came + [c];
    forall i | 0 <= i < |cs| ensures Next(closest, cs[..i]) == Some((asked + [e])[i]) {
      assert cs[..i] == came[..i];
      if i == |came| { assert came[..i] == came; }
    }
  }

  /** The peers asked that the contact before had not named. */
  function Unnamed<K>(asked: seq<Entry<K>>, came: seq<Contact<K>>): (es: seq<Entry<K>>)
    requires |asked| == |came|
  {
    if asked == [] then [] else
      Unnamed(asked[..|asked| - 1], came[..|came| - 1])
      + if |asked| > 1 && Names(came[|came| - 2]) then [] else [asked[|asked| - 1]]
  }

  lemma {:induction false} UnnamedAreEnds<K>(asked: seq<Entry<K>>, came: seq<Contact<K>>)
    requires |asked| == |came|
    ensures |Unnamed(asked, came)| == Ends(came) + if came != [] && Names(came[|came| - 1]) then 1 else 0
  {
    if asked != [] {
      UnnamedAreEnds(asked[..|asked| - 1], came[..|came| - 1]);
    }
  }

  lemma FollowsFront<K(!new)>(world: World<K>, closest: seq<Option<Entry<K>>>, addr: K, asked: seq<Entry<K>>, came: seq<Contact<K>>, n: nat)
    requires Follows(world, closest, addr, asked, came) && n <= |asked|
    ensures Follows(world, closest, addr, asked[..n], came[..n])
  {
    forall i | 0 <= i < n ensures Next(closest, came[..n][..i]) == Some(asked[..n][i]) {
      assert came[..n][..i] == came[..i];
    }
  }

  /** A peer that a contact named first is asked right after it. */
  lemma NamedIsNext<K(!new)>(world: World<K>, closest: seq<Option<Entry<K>>>, addr: K, asked: seq<Entry<K>>, came: seq<Contact<K>>, i: nat)
    requires Follows(world, closest, addr, asked, came) && 0 < i < |asked| && Names(came[i - 1])
    ensures asked[i] == came[i - 1].answer.entries[0]
  {
    assert Next(closest, came[..i]) == Some(asked[i]);
  }

  /** All other peers asked are the closest ones, in order. */
  lemma {:induction false} OthersAreClosest<K(!new)>(world: World<K>, closest: seq<Option<Entry<K>>>, addr: K, asked: seq<Entry<K>>, came: seq<Contact<K>>, m: nat)
    requires Follows(world, closest, addr, asked, came) && m < |Unnamed(asked, came)|
    ensures m < |closest| && closest[m] == Some(Unnamed(asked, came)[m])
  {
    var n := |asked| - 1;
    var front := Unnamed(asked[..n], came[..n]);
    FollowsFront(world, closest, addr, asked, came, n);
    if m < |front| {
      OthersAreClosest(world, closest, addr, asked[..n], came[..n], m);
    } else {
      UnnamedAreEnds(asked[..n], came[..n]);
      assert Next(closest, came[..n]) == Some(asked[n]);
    }
  }

  /** How a search ends: after at most six contacts, found exactly if one of them delivered the entry looked for,
      which is then the last; at the limit exactly if a seventh was to be made; and otherwise when there is
      nobody left to ask. */
  ghost predicate Searched<K(!new)>(world: World<K>, closest: seq<Option<Entry<K>>>, addr: K, t: Trace<K>, r: Result<K>) {
    && Follows(world, closest, addr, t.asked, t.came) && |t.asked| <= 6 && t.attempts <= 7
    && (r.RecursionLimit? <==> t.attempts == 7)
    && (r.RecursionLimit? ==> |t.asked| == 6 && Next(closest, t.came).Some?)
    && (r.Resolved? <==> exists j :: 0 <= j < |t.came| && Delivers(t.came[j], addr))
    && (r.Resolved? ==> && t.came != [] && Delivers(t.came[|t.came| - 1], addr)
                        && r.entry == t.came[|t.came| - 1].answer.entry)
    && (r.Failed? ==> Next(closest, t.came).None?)
    && !r.Nothing?
  }

  /** How a step goes on from what came before it: an entry is returned exactly if the last contact it made gave
      one, at the limit there was somebody to ask, and otherwise one more contact named nobody, the last. */
  ghost predicate Advanced<K(!new)>(closest: seq<Option<Entry<K>>>, prior: seq<Contact<K>>, came: seq<Contact<K>>, r: Result<K>) {
    && prior <= came
    && (forall j :: |prior| <= j < |came| - 1 ==> !IsHit(came[j]))
    && (r.Resolved? <==> |came| > |prior| && IsHit(came[|came| - 1]))
    && (r.Resolved? ==> r.entry == came[|came| - 1].answer.entry)
    && (r.RecursionLimit? ==> Next(closest, came).Some?)
    && (!r.RecursionLimit? ==> came != [] && !Names(came[|came| - 1]) && Ends(came) == Ends(prior) + 1)
  }

  lemma AdvancedByOne<K(!new)>(closest: seq<Option<Entry<K>>>, prior: seq<Contact<K>>, c: Contact<K>, r: Result<K>)
    requires !Names(c) && !r.RecursionLimit? && (r.Resolved? <==> IsHit(c)) && (r.Resolved? ==> r.entry == c.answer.entry)
    ensures Advanced(closest, prior, prior + [c], r)
  {
    assert (prior + [c])[..|prior|] == prior;
  }

  lemma AdvancedThrough<K(!new)>(closest: seq<Option<Entry<K>>>, prior: seq<Contact<K>>, c: Contact<K>, came: seq<Contact<K>>, r: Result<K>)
    requires Names(c) && Advanced(closest, prior + [c], came, r)
    ensures Advanced(closest, prior, came, r)
  {
    assert (prior + [c])[..|prior|] == prior;
    assert came[|prior|] == (prior + [c])[|prior|] == c;
  }

  /** Nobody delivered the entry looked for. */
  ghost predicate NotYet<K(!new)>(came: seq<Contact<K>>, addr: K) {
    forall j :: 0 <= j < |came| ==> !Delivers(came[j], addr)
  }

  lemma AdvancedDelivers<K(!new)>(closest: seq<Option<Entry<K>>>, prior: seq<Contact<K>>, came: seq<Contact<K>>, addr: K, r: Result<K>)
    requires NotYet(prior, addr) && Advanced(closest, prior, came, r)
    ensures NotYet(came, addr) <==> !(r.Resolved? && r.entry.address == addr)
    ensures r.Resolved? && r.entry.address == addr ==> Delivers(came[|came| - 1], addr)
  {
    forall j | 0 <= j < |came| - 1 ensures !Delivers(came[j], addr) {
      if j < |prior| { assert came[j] == prior[j]; }
    }
  }

  class Resolver<K(!new,==)> {
    const world: World<K>
    /** What has been done to the database. */
    var done: seq<Op<K>>
    var depth: nat
    var asked: seq<Entry<K>>
    var came: seq<Contact<K>>
    var attempts: nat

    constructor (world: World<K>)
      ensures this.world == world && done == [] && depth == BUDGET && asked == [] && came == [] && attempts == 0
    {
      this.world := world;
      done, depth, asked, came, attempts := [], BUDGET, [], [], 0;
    }

    /** The budget is what is left of six contacts, and only an attempt without budget is not a contact. */
    ghost predicate Counted()
      reads this
    {
      && |asked| + depth == 6
      && |asked| <= attempts <= |asked| + 1
      && (attempts > |asked| ==> depth == 0)
    }

    ghost predicate Going(closest: seq<Option<Entry<K>>>, addr: K)
      reads this
    {
      Counted() && Follows(world, closest, addr, asked, came) && done == Introductions(came)
    }

    ghost predicate Stepped(closest: seq<Option<Entry<K>>>, addr: K, prior: seq<Contact<K>>, r: Result<K>)
      reads this
    {
      && Going(closest, addr) && Advanced(closest, prior, came, r)
      && (r.RecursionLimit? <==> attempts == |asked| + 1)
    }

    /** The part of a step that spends budget: connect if need be, and ask. */
    method MakeContact(e: Entry<K>, addr: K, ghost closest: seq<Option<Entry<K>>>) returns (c: Contact<K>)
      requires depth > 0 && |asked| + depth == 6 && attempts == |asked| + 1
      requires Follows(world, closest, addr, asked, came) && done == Introductions(came) && Next(closest, came) == Some(e)
      modifies this`depth, this`asked, this`came, this`done
      ensures Going(closest, addr) && attempts == |asked| && depth == old(depth) - 1
      ensures asked == old(asked) + [e] && came == old(came) + [c]
      ensures Ends(came) == Ends(old(came)) + if Names(c) then 0 else 1
    {
      c := world(|asked|, e, addr);
      FollowsOn(world, closest, addr, asked, came, e, c);
      depth, asked, came := depth - 1, asked + [e], came + [c];
      assert came[..|came| - 1] == old(came);
      if c.Reached? && c.handshake.Some? {
        done := done + [Op.Insert(c.handshake.value)];
      }
    }

    /** resolveStep: ask one peer, and then the peers it names. */
    method ResolveStep(e: Entry<K>, addr: K, ghost closest: seq<Option<Entry<K>>>) returns (r: Result<K>)
      requires Going(closest, addr) && attempts == |asked| && Next(closest, came) == Some(e)
      modifies this
      ensures Stepped(closest, addr, old(came), r) && !r.Nothing?
      decreases depth, 1
    {
      attempts := attempts + 1;
      if depth == 0 {
        return RecursionLimit;
      }
      var c := MakeContact(e, addr, closest);
      if c.Unreachable? || c.answer.QueryFailed? || c.answer.ClosestFailed? {
        AdvancedByOne(closest, old(came), c, Failed);
        return Failed;
      }
      if c.answer.Hit? {
        AdvancedByOne(closest, old(came), c, Resolved(c.answer.entry));
        return Resolved(c.answer.entry);
      }
      r := AskNamed(c.answer.entries, addr, closest, old(came), c);
    }

    /** The loop over the peers that one peer named, which ends with the first that gives an entry or an error:
        that is the first. */
    method AskNamed(entries: seq<Entry<K>>, addr: K, ghost closest: seq<Option<Entry<K>>>, ghost prior: seq<Contact<K>>, ghost c: Contact<K>)
      returns (r: Result<K>)
      requires Going(closest, addr) && attempts == |asked|
      requires came == prior + [c] && c.Reached? && c.answer == Nearer(entries)
      modifies this
      ensures Stepped(closest, addr, prior, r) && !r.Nothing?
      decreases depth + 1, 0
    {
      r := Nothing;
      var i := 0;
      while i < |entries| && r.Nothing?
        invariant 0 <= i <= |entries| && (r.Nothing? ==> i == 0)
        invariant r.Nothing? ==> unchanged(this)
        invariant !r.Nothing? ==> i > 0 && Stepped(closest, addr, prior + [c], r)
      {
        r := ResolveStep(entries[i], addr, closest);
        i := i + 1;
      }
      if r.Nothing? {
        r := Failed;
        AdvancedByOne(closest, prior, c, r);
      } else {
        AdvancedThrough(closest, prior, c, came, r);
      }
    }

    /** One round of the loop over the closest peers: the step, and whether it is the last round. */
    method SearchNext(e: Entry<K>, addr: K, ghost closest: seq<Option<Entry<K>>>) returns (r: Result<K>, found: bool)
      requires Going(closest, addr) && attempts == |asked| && Next(closest, came) == Some(e) && NotYet(came, addr)
      modifies this
      ensures Stepped(closest, addr, old(came), r) && !r.Nothing?
      ensures found <==> r.Resolved? && r.entry.address == addr
      ensures if found then came != [] && Delivers(came[|came| - 1], addr) else NotYet(came, addr)
    {
      r := ResolveStep(e, addr, closest);
      found := r.Resolved? && r.entry.address == addr;
      AdvancedDelivers(closest, old(came), came, addr, r);
    }

    /** The loop over the peers closest to the address: errors other than the limit, and entries for other
        addresses, are passed over. */
    method Search(closest: seq<Option<Entry<K>>>, addr: K) returns (r: Result<K>)
      requires depth == BUDGET && asked == [] && came == [] && attempts == 0 && done == []
      requires forall i :: 0 <= i < |closest| ==> closest[i].Some?
      modifies this
      ensures Searched(world, closest, addr, Trace(asked, came, attempts), r)
      ensures done == Introductions(came) + if r.Resolved? then [Op.Insert(r.entry)] else []
    {
      for i := 0 to |closest|
        invariant Going(closest, addr) && attempts == |asked|
        invariant (came != [] ==> !Names(came[|came| - 1])) && Ends(came) == i
        invariant NotYet(came, addr)
      {
        var found;
        r, found := SearchNext(closest[i].value, addr, closest);
        if r.RecursionLimit? {
          return;
        }
        if found {
          done := done + [Op.Insert(r.entry)];
          return;
        }
      }
      r := Failed;
    }
  }

  lemma {:induction false} RunConcat<K(!new)>(home: K -> Index, verify: Verifier<K>, s: State<K>, a: seq<Op<K>>, b: seq<Op<K>>)
    requires |s.table| == BUCKETS
    ensures Run(home, verify, Run(home, verify, s, a), b) == Run(home, verify, s, a + b)
  {
    if b == [] {
      assert a + b == a;
    } else {
      var c := a + b;
      assert c[..|c| - 1] == a + b[..|b| - 1] && c[|c| - 1] == b[|b| - 1];
      RunConcat(home, verify, s, a, b[..|b| - 1]);
    }
  }

  lemma RunNext<K(!new)>(home: K -> Index, verify: Verifier<K>, s: State<K>, ops: seq<Op<K>>, n: nat)
    requires |s.table| == BUCKETS && n < |ops|
    ensures Run(home, verify, s, ops[..n + 1]) == Step(home, verify, Run(home, verify, s, ops[..n]), ops[n])
  {
    assert ops[..n + 1][..n] == ops[..n];
  }

  /** The inserts of a search, in order. */
  method PerformInserts<K(!new,==)>(dht: NetDB<K>, ops: seq<Op<K>>)
    requires dht.Valid() && forall i :: 0 <= i < |ops| ==> ops[i].Insert?
    modifies dht, dht.Arrays()
    ensures dht.Valid() && dht.State() == Run(dht.home, dht.verify, old(dht.State()), ops)
  {
    var i := 0;
    while i < |ops|
      invariant 0 <= i <= |ops| && dht.Valid()
      invariant forall j :: 0 <= j < BUCKETS ==> dht.table[j] == old(dht.table)[j] || fresh(dht.table[j].data)
      invariant dht.State() == Run(dht.home, dht.verify, old(dht.State()), ops[..i])
    {
      RunNext(dht.home, dht.verify, old(dht.State()), ops, i);
      var _ := dht.Insert(ops[i].entry);
      i := i + 1;
    }
    assert ops[..i] == ops;
  }

  lemma {:induction false} IntroductionsInsert<K>(came: seq<Contact<K>>)
    ensures forall i :: 0 <= i < |Introductions(came)| ==> Introductions(came)[i].Insert?
  {
    if came != [] {
      IntroductionsInsert(came[..|came| - 1]);
    }
  }

  // ---------------------------------------------------------------- the rows after a search

  /** The contact introduced a peer with this address, and its entry verifies. */
  predicate Introduces<K(==)>(verify: Verifier<K>, c: Contact<K>, a: K) {
    c.Reached? && c.handshake.Some? && verify(c.handshake.value) && c.handshake.value.address == a
  }

  /** The answer is an entry for this address, and verifies. */
  predicate Answered<K(==)>(verify: Verifier<K>, r: Result<K>, a: K) {
    r.Resolved? && verify(r.entry) && r.entry.address == a
  }

  /** No contact from the n-th on introduced a peer with this address. */
  ghost predicate Silent<K(!new)>(verify: Verifier<K>, came: seq<Contact<K>>, n: nat, a: K) {
    forall i :: n <= i < |came| ==> !Introduces(verify, came[i], a)
  }

  /** The rows a search leaves: those there were, one for every verified introduction, and one for the answer if
      it verifies; each with the fields of the answer, or else of the last introduction, or else as it was. */
  ghost predicate RowsAfter<K(!new)>(verify: Verifier<K>, before: Rows<K>, came: seq<Contact<K>>, r: Result<K>, after: Rows<K>, a: K) {
    && (a in after <==>
          a in before || (exists j :: 0 <= j < |came| && Introduces(verify, came[j], a)) || Answered(verify, r, a))
    && (Answered(verify, r, a) ==> after[a].info == r.entry.info)
    && (forall j :: 0 <= j < |came| && Introduces(verify, came[j], a) && Silent(verify, came, j + 1, a) && !Answered(verify, r, a)
                    ==> after[a].info == came[j].handshake.value.info)
    && (a in before && !Answered(verify, r, a) && Silent(verify, came, 0, a) ==> after[a].info == before[a].info)
  }

  /** What a search does to the database. */
  function Deeds<K>(addr: K, came: seq<Contact<K>>, r: Result<K>): (ops: seq<Op<K>>) {
    [Op.Query(addr), Op.FindClosest(addr)] + (Introductions(came) + if r.Resolved? then [Op.Insert(r.entry)] else [])
  }

  lemma {:induction false} LastInsertConcat<K(!new)>(verify: Verifier<K>, p: seq<Op<K>>, q: seq<Op<K>>, a: K)
    ensures LastInsert(verify, p + q, a) ==
            if LastInsert(verify, q, a).Some? then LastInsert(verify, q, a) else LastInsert(verify, p, a)
  {
    if q == [] {
      assert p + q == p;
    } else {
      var all := p + q;
      assert all[..|all| - 1] == p + q[..|q| - 1] && all[|all| - 1] == q[|q| - 1];
      LastInsertConcat(verify, p, q[..|q| - 1], a);
    }
  }

  lemma LastInsertOne<K(!new)>(verify: Verifier<K>, op: Op<K>, a: K)
    ensures LastInsert(verify, [op], a) == if Writes(verify, op, a) then Some(op.entry.info) else None
  {
    assert [op][..0] == [];
  }

  lemma IntroductionStep<K(!new)>(verify: Verifier<K>, front: seq<Contact<K>>, c: Contact<K>, a: K)
    ensures LastInsert(verify, Introductions(front + [c]), a) ==
            if Introduces(verify, c, a) then Some(c.handshake.value.info) else LastInsert(verify, Introductions(front), a)
  {
    assert (front + [c])[..|front|] == front;
    if c.Reached? && c.handshake.Some? {
      LastInsertConcat(verify, Introductions(front), [Op.Insert(c.handshake.value)], a);
      LastInsertOne(verify, Op.Insert(c.handshake.value), a);
    } else {
      assert Introductions(front + [c]) == Introductions(front);
    }
  }

  lemma {:induction false} LastIntroduction<K(!new)>(verify: Verifier<K>, came: seq<Contact<K>>, a: K)
    ensures LastInsert(verify, Introductions(came), a).None? <==> Silent(verify, came, 0, a)
    ensures forall j :: 0 <= j < |came| && Introduces(verify, came[j], a) && Silent(verify, came, j + 1, a)
                        ==> LastInsert(verify, Introductions(came), a) == Some(came[j].handshake.value.info)
  {
    if came != [] {
      var front, c := came[..|came| - 1], came[|came| - 1];
      assert came == front + [c];
      IntroductionStep(verify, front, c, a);
      LastIntroduction(verify, front, a);
      if !Introduces(verify, c, a) {
        assert Silent(verify, came, 0, a) <==> Silent(verify, front, 0, a);
        assert forall j :: 0 <= j < |front| && Introduces(verify, front[j], a) && Silent(verify, came, j + 1, a)
                           ==> Silent(verify, front, j + 1, a);
      }
    }
  }

  lemma LastDeed<K(!new)>(verify: Verifier<K>, addr: K, came: seq<Contact<K>>, r: Result<K>, a: K)
    ensures LastInsert(verify, Deeds(addr, came, r), a) ==
            if Answered(verify, r, a) then Some(r.entry.info) else LastInsert(verify, Introductions(came), a)
  {
    var asks, answer := [Op.Query(addr), Op.FindClosest(addr)], if r.Resolved? then [Op.Insert(r.entry)] else [];
    assert asks == [Op.Query(addr)] + [Op.FindClosest(addr)];
    LastInsertOne(verify, Op.Query(addr), a);
    LastInsertOne(verify, Op.FindClosest(addr), a);
    LastInsertConcat(verify, [Op.Query(addr)], [Op.FindClosest(addr)], a);
    LastInsertConcat(verify, asks, Introductions(came) + answer, a);
    LastInsertConcat(verify, Introductions(came), answer, a);
    if r.Resolved? {
      LastInsertOne(verify, Op.Insert(r.entry), a);
    }
  }

  lemma SearchRows<K(!new)>(home: K -> Index, verify: Verifier<K>, s: State<K>, addr: K, came: seq<Contact<K>>, r: Result<K>, a: K)
    requires |s.table| == BUCKETS
    ensures RowsAfter(verify, s.rows, came, r, Run(home, verify, s, Deeds(addr, came, r)).rows, a)
  {
    RunRows(home, verify, s, Deeds(addr, came, r), a);
    LastDeed(verify, addr, came, r, a);
    LastIntroduction(verify, came, a);
  }

  // ---------------------------------------------------------------- resolving

  /** The search in the network, and the inserts it makes on the way. */
  method AskNetwork<K(!new,==)>(closest: seq<Option<Entry<K>>>, addr: K, world: World<K>)
    returns (r: Result<K>, t: Trace<K>, done: seq<Op<K>>)
    requires forall i :: 0 <= i < |closest| ==> closest[i].Some?
    ensures Searched(world, closest, addr, t, r)
    ensures done == Introductions(t.came) + if r.Resolved? then [Op.Insert(r.entry)] else []
    ensures forall i :: 0 <= i < |done| ==> done[i].Insert?
  {
    var search := new Resolver<K>(world);
    r := search.Search(closest, addr);
    t, done := Trace(search.asked, search.came, search.attempts), search.done;
    IntroductionsInsert(t.came);
  }

  /** The search and its inserts. Nothing reads the database while the search goes on, so they are performed
      together at the end. */
  method AskAndInsert<K(!new,==)>(dht: NetDB<K>, closest: seq<Option<Entry<K>>>, addr: K, world: World<K>)
    returns (r: Result<K>, t: Trace<K>, done: seq<Op<K>>)
    requires dht.Valid() && forall i :: 0 <= i < |closest| ==> closest[i].Some?
    modifies dht, dht.Arrays()
    ensures dht.Valid() && dht.State() == Run(dht.home, dht.verify, old(dht.State()), done)
    ensures Searched(world, closest, addr, t, r)
    ensures done == Introductions(t.came) + if r.Resolved? then [Op.Insert(r.entry)] else []
  {
    r, t, done := AskNetwork(closest, addr, world);
    PerformInserts(dht, done);
  }

  /** PeerManager.Resolve, with the closest peers it starts from and a trace of its search. */
  method Resolve<K(!new,==)>(dht: NetDB<K>, own: Entry<K>, addr: K, world: World<K>)
    returns (r: Result<K>, closest: seq<Option<Entry<K>>>, t: Trace<K>, ghost done: seq<Op<K>>)
    requires dht.Valid()
    modifies dht, dht.Arrays()
    ensures dht.Valid() && dht.State() == Run(dht.home, dht.verify, old(dht.State()), done)
    ensures r.Resolved? ==> r.entry.address == addr
    ensures addr == own.address ==> r == Resolved(own) && t.asked == [] && done == []
    ensures addr != own.address && addr in old(dht.rows) ==>
              r.Resolved? && Stored(old(dht.rows), old(dht.links), r.entry) && t.asked == [] && done == [Op.Query(addr)]
    ensures addr != own.address && addr !in old(dht.rows) ==>
              && Answers(old(dht.rows), old(dht.links), ClosestTo(old(dht.Buckets()), dht.home(addr)), closest)
              && Searched(world, closest, addr, t, r)
              && done == Deeds(addr, t.came, r)
              && forall a :: RowsAfter(dht.verify, old(dht.rows), t.came, r, dht.rows, a)
  {
    closest, t, done := [], Trace([], [], 0), [];
    if addr == own.address {
      return Resolved(own), closest, t, done;
    }
    var kv, _ := dht.Query(addr);
    done := [Op.Query(addr)];
    RunTwo(dht.home, dht.verify, old(dht.State()), addr);
    if kv.Some? {
      return Resolved(kv.value), closest, t, done;
    }
    closest := dht.FindClosest(addr);
    r, t, done := AskAndInsert(dht, closest, addr, world);
    RunConcat(dht.home, dht.verify, old(dht.State()), [Op.Query(addr), Op.FindClosest(addr)], done);
    done := [Op.Query(addr), Op.FindClosest(addr)] + done;
    forall a ensures RowsAfter(dht.verify, old(dht.rows), t.came, r, dht.rows, a) {
      SearchRows(dht.home, dht.verify, old(dht.State()), addr, t.came, r, a);
    }
  }

  /** The state after a query, and after a search that follows it. */
  lemma RunTwo<K(!new)>(home: K -> Index, verify: Verifier<K>, s: State<K>, addr: K)
    requires |s.table| == BUCKETS
    ensures Run(home, verify, s, [Op.Query(addr)]) == Step(home, verify, s, Op.Query(addr))
    ensures Run(home, verify, s, [Op.Query(addr), Op.FindClosest(addr)])
            == Step(home, verify, Step(home, verify, s, Op.Query(addr)), Op.FindClosest(addr))
  {
    var ops := [Op.Query(addr), Op.FindClosest(addr)];
    assert ops[..0] == [] && ops[..1] == [Op.Query(addr)] && ops[..2] == ops;
    RunNext(home, verify, s, ops, 0);
    RunNext(home, verify, s, ops, 1);
  }
}
