/** Most-recent-first lists: the list a touch produces, and the bounded list that refines it. */
module Recency {

  /** No element occurs twice. */
  ghost predicate Distinct<T>(s: seq<T>) {
    forall i, j :: 0 <= i < j < |s| ==> s[i] != s[j]
  }

  /** The position of the first occurrence of an element; the length when there is none. */
  function Find<T(==)>(s: seq<T>, a: T): (k: nat)
    ensures k <= |s| && (k < |s| ==> s[k] == a)
    ensures forall j :: 0 <= j < k ==> s[j] != a
  {
    if s == [] || s[0] == a then 0 else 1 + Find(s[1..], a)
  }

  /** A sequence without the first occurrence of an element. */
  function Remove<T(==)>(s: seq<T>, a: T): (r: seq<T>)
    ensures |r| == if a in s then |s| - 1 else |s|
    ensures a !in s ==> r == s
  {
    var k := Find(s, a);
    if k == |s| then s else s[..k] + s[k + 1..]
  }

  lemma RemoveMultiset<T>(s: seq<T>, a: T)
    requires a in s
    ensures multiset([a] + Remove(s, a)) == multiset(s)
  {
    var k := Find(s, a);
    assert s == s[..k] + ([s[k]] + s[k + 1..]);
    assert multiset(s) == multiset(s[..k]) + (multiset{s[k]} + multiset(s[k + 1..]));
  }

  /** Where position `i` of what remains was before the removal; it keeps the order. */
  function Before<T(==)>(s: seq<T>, a: T, i: nat): (p: nat)
    requires i < |Remove(s, a)|
    ensures p < |s| && s[p] == Remove(s, a)[i] && i <= p <= i + 1
    ensures Distinct(s) ==> s[p] != a
  {
    if i < Find(s, a) then i else i + 1
  }

  lemma RemoveMembers<T>(s: seq<T>, a: T)
    ensures forall x :: x in Remove(s, a) ==> x in s
    ensures forall x :: x in s && x != a ==> x in Remove(s, a)
  {
    var r, k := Remove(s, a), Find(s, a);
    forall x | x in r ensures x in s {
      var i :| 0 <= i < |r| && r[i] == x;
      assert s[Before(s, a, i)] == x;
    }
    forall x | x in s && x != a ensures x in r {
      var p :| 0 <= p < |s| && s[p] == x;
      assert r[if p < k then p else p - 1] == x;
    }
  }

  lemma RemoveDistinct<T>(s: seq<T>, a: T)
    requires Distinct(s)
    ensures Distinct(Remove(s, a)) && a !in Remove(s, a)
  {
    var r := Remove(s, a);
    forall i, j | 0 <= i < j < |r| ensures r[i] != r[j] {
      assert Before(s, a, i) < Before(s, a, j);
    }
    forall i | 0 <= i < |r| ensures r[i] != a {
      assert s[Before(s, a, i)] != a;
    }
  }

  lemma RemoveWithin<T>(s: seq<T>, a: T, n: nat)
    requires n <= |s| && a in s[..n]
    ensures Remove(s, a) == Remove(s[..n], a) + s[n..]
  {
    assert Find(s, a) == Find(s[..n], a);
  }

  lemma RemoveBeyond<T>(s: seq<T>, a: T, n: nat)
    requires n <= |s| && a !in s[..n]
    ensures |Remove(s, a)| >= n && Remove(s, a)[..n] == s[..n]
  {
    assert Find(s, a) >= n;
  }

  // ---------------------------------------------------------------- the bounded list

  /** Moves `a` to the front, evicting the tail of a full list that does not hold it. */
  function Touch<T(==)>(bound: nat, b: seq<T>, a: T): (r: seq<T>)
    requires bound > 0
  {
    if a in b then [a] + Remove(b, a) else if |b| == bound then [a] + b[..bound - 1] else [a] + b
  }

  function TouchAll<T(==)>(bound: nat, b: seq<T>, h: seq<T>): (r: seq<T>)
    requires bound > 0
  {
    if h == [] then b else Touch(bound, TouchAll(bound, b, h[..|h| - 1]), h[|h| - 1])
  }

  lemma TouchKeeps<T>(bound: nat, b: seq<T>, a: T)
    requires bound > 0 && Distinct(b) && |b| <= bound
    ensures Distinct(Touch(bound, b, a)) && |Touch(bound, b, a)| <= bound
    ensures forall x :: x in Touch(bound, b, a) ==> x == a || x in b
  {
    RemoveDistinct(b, a);
    RemoveMembers(b, a);
  }

  lemma TouchPermutes<T>(bound: nat, b: seq<T>, a: T)
    requires bound > 0 && a in b
    ensures multiset(Touch(bound, b, a)) == multiset(b)
  {
    RemoveMultiset(b, a);
  }

  // ---------------------------------------------------------------- the unbounded list

  /** The distinct elements of a history, the most recently touched first. */
  function Recent<T(==)>(h: seq<T>): (r: seq<T>)
  {
    if h == [] then [] else [h[|h| - 1]] + Remove(Recent(h[..|h| - 1]), h[|h| - 1])
  }

  function First<T>(bound: nat, s: seq<T>): (r: seq<T>)
  {
    if |s| <= bound then s else s[..bound]
  }

  /** The index of the last touch of an element. */
  function LastTouch<T(==)>(h: seq<T>, a: T): (k: nat)
    requires a in h
    ensures k < |h| && h[k] == a && forall j :: k < j < |h| ==> h[j] != a
  {
    if h[|h| - 1] == a then |h| - 1 else LastTouch(h[..|h| - 1], a)
  }

  lemma {:induction false} RecentMembers<T>(h: seq<T>)
    ensures Distinct(Recent(h))
    ensures forall a :: a in Recent(h) <==> a in h
  {
    if h != [] {
      var g, a := h[..|h| - 1], h[|h| - 1];
      RecentMembers(g);
      RemoveDistinct(Recent(g), a);
      RemoveMembers(Recent(g), a);
      assert h == g + [a];
    }
  }

  lemma FindUnique<T>(s: seq<T>, a: T, k: nat)
    requires k < |s| && s[k] == a
    requires forall j :: 0 <= j < k ==> s[j] != a
    ensures Find(s, a) == k
  {
  }

  lemma FindAfterRemove<T>(s: seq<T>, c: T, a: T)
    requires a in s && a != c
    ensures Find(Remove(s, c), a) == if Find(s, c) < Find(s, a) then Find(s, a) - 1 else Find(s, a)
  {
    var k, p, r := Find(s, c), Find(s, a), Remove(s, c);
    FindUnique(r, a, if k < p then p - 1 else p);
  }

  lemma FindInCons<T>(c: T, r: seq<T>, a: T)
    requires a != c
    ensures Find([c] + r, a) == 1 + Find(r, a)
  {
    assert ([c] + r)[1..] == r;
  }

  /** Where a touch of `c` moves the other elements of a list. */
  lemma TouchPosition<T>(r: seq<T>, c: T, a: T)
    requires a in r && a != c
    ensures Find([c] + Remove(r, c), a) == if Find(r, c) < Find(r, a) then Find(r, a) else 1 + Find(r, a)
  {
    FindAfterRemove(r, c, a);
    FindInCons(c, Remove(r, c), a);
  }

  lemma LastTouchAppend<T>(g: seq<T>, c: T, a: T)
    requires a in g + [c]
    ensures a == c ==> LastTouch(g + [c], a) == |g|
    ensures a != c ==> a in g && LastTouch(g + [c], a) == LastTouch(g, a)
  {
    assert (g + [c])[..|g|] == g;
  }

  /** A touch of `c` keeps a list of elements ordered by their last touch. */
  lemma TouchKeepsOrder<T>(g: seq<T>, r: seq<T>, c: T, a: T, b: T)
    requires a in g + [c] && b in g + [c]
    requires a in g ==> a in r
    requires b in g ==> b in r
    requires a in g && b in g ==> (Find(r, a) < Find(r, b) <==> LastTouch(g, a) > LastTouch(g, b))
    ensures Find([c] + Remove(r, c), a) < Find([c] + Remove(r, c), b) <==> LastTouch(g + [c], a) > LastTouch(g + [c], b)
  {
    LastTouchAppend(g, c, a);
    LastTouchAppend(g, c, b);
    if a != c { TouchPosition(r, c, a); }
    if b != c { TouchPosition(r, c, b); }
  }

  /** `Recent` is what its name says: it lists every touched element, and later touches come first. */
  lemma {:induction false} RecentIsOrderedByLastTouch<T>(h: seq<T>, a: T, b: T)
    requires a in h && b in h
    ensures Find(Recent(h), a) < Find(Recent(h), b) <==> LastTouch(h, a) > LastTouch(h, b)
  {
    var g, c := h[..|h| - 1], h[|h| - 1];
    assert h == g + [c];
    RecentMembers(g);
    if a in g && b in g {
      RecentIsOrderedByLastTouch(g, a, b);
    }
    TouchKeepsOrder(g, Recent(g), c, a, b);
  }

  /** One step of the refinement: touching the bounded prefix is the bounded prefix of touching the whole. */
  lemma TouchRefines<T>(bound: nat, r: seq<T>, a: T)
    requires bound > 0
    ensures Touch(bound, First(bound, r), a) == First(bound, [a] + Remove(r, a))
  {
    if |r| > bound {
      if a in r[..bound] { RemoveWithin(r, a, bound); } else { RemoveBeyond(r, a, bound); }
    } else {
      RemoveMembers(r, a);
    }
  }

  /** From an empty list, any history leaves the first `bound` of its elements by most recent touch. */
  lemma {:induction false} TouchAllRefines<T>(bound: nat, h: seq<T>)
    requires bound > 0
    ensures TouchAll(bound, [], h) == First(bound, Recent(h))
  {
    if h != [] {
      TouchAllRefines(bound, h[..|h| - 1]);
      TouchRefines(bound, Recent(h[..|h| - 1]), h[|h| - 1]);
    }
  }
}
