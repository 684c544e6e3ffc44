/** Cutting a stream of records into pieces of a fixed size, over any kind of token and record. */
module Chunks {
  import opened Delimited
  import opened Options

  /** One attempt to read a record: the record, if there is one, and the tokens after it. */
  datatype One<F, P> = One(record: Option<P>, rest: seq<F>)

  type Parser<!F, !P> = seq<F> -> One<F, P>

  datatype Parsed<F, P> = Parsed(records: seq<P>, rest: seq<F>)

  /** Records up to the first that cannot be read, at most room of them. */
  function ParseUpTo<F, P>(parse: Parser<F, P>, ts: seq<F>, room: nat): (r: Parsed<F, P>)
    ensures |r.records| <= room
    decreases room, |ts|
  {
    if room == 0 then Parsed([], ts) else
      var r := parse(ts);
      if r.record.None? then Parsed([], r.rest) else
        var more := ParseUpTo(parse, r.rest, room - 1);
        Parsed([r.record.value] + more.records, more.rest)
  }

  /** Having read some records, what is left to read completes what was to be read from the start. */
  ghost predicate Behind<F, P>(parse: Parser<F, P>, from: seq<F>, room: nat, read: seq<P>, left: seq<F>) {
    && |read| <= room
    && var more := ParseUpTo(parse, left, room - |read|);
       ParseUpTo(parse, from, room) == Parsed(read + more.records, more.rest)
  }

  lemma ReadOne<F, P>(parse: Parser<F, P>, from: seq<F>, room: nat, read: seq<P>, left: seq<F>)
    requires Behind(parse, from, room, read, left) && |read| < room
    ensures var r := parse(left);
            if r.record.None? then ParseUpTo(parse, from, room) == Parsed(read, r.rest)
            else Behind(parse, from, room, read + [r.record.value], r.rest)
  {
    var r := parse(left);
    if r.record.Some? {
      var more := ParseUpTo(parse, r.rest, room - |read| - 1);
      assert read + ([r.record.value] + more.records) == read + [r.record.value] + more.records;
    }
  }

  /** n pieces, whatever the stream holds. */
  function ParsePieces<F, P>(parse: Parser<F, P>, size: nat, ts: seq<F>, n: nat): (r: seq<seq<P>>)
    ensures |r| == n
    decreases n, |ts|
  {
    if n == 0 then [] else
      var p := ParseUpTo(parse, ts, size);
      [p.records] + ParsePieces(parse, size, p.rest, n - 1)
  }

  /** Each line reads back as its record, whatever comes after it. */
  ghost predicate Reads<F(!new), P>(parse: Parser<F, P>, ls: seq<seq<F>>, ps: seq<P>) {
    |ls| == |ps| && forall i, rest :: 0 <= i < |ps| ==> parse(ls[i] + rest) == One(Some(ps[i]), rest)
  }

  lemma ParseStep<F(!new), P>(parse: Parser<F, P>, line: seq<F>, p: P, tail: seq<F>, room: nat)
    requires parse(line + tail) == One(Some(p), tail) && room > 0
    ensures var more := ParseUpTo(parse, tail, room - 1);
            ParseUpTo(parse, line + tail, room) == Parsed([p] + more.records, more.rest)
  {
  }

  /** Lines come back in order, and parsing goes on after them. */
  lemma {:induction false} ParseLines<F(!new), P>(parse: Parser<F, P>, ls: seq<seq<F>>, ps: seq<P>, rest: seq<F>, room: nat)
    requires Reads(parse, ls, ps) && |ps| <= room
    ensures var more := ParseUpTo(parse, rest, room - |ps|);
            ParseUpTo(parse, Flat(ls) + rest, room) == Parsed(ps + more.records, more.rest)
    decreases room
  {
    if ps == [] {
      assert Flat(ls) + rest == rest;
    } else {
      var tail := Flat(ls[1..]) + rest;
      ParseStep(parse, ls[0], ps[0], tail, room);
      assert ls[0] + tail == Flat(ls) + rest;
      ParseLines(parse, ls[1..], ps[1..], rest, room - 1);
      var more := ParseUpTo(parse, rest, room - |ps|).records;
      assert [ps[0]] + (ps[1..] + more) == ps + more;
    }
  }

  /** A stop line: nothing is read from it, and nothing from what it leaves behind. */
  ghost predicate Stops<F, P>(parse: Parser<F, P>, stop: seq<F>) {
    && parse(stop).record.None?
    && parse(parse(stop).rest) == One(None, [])
    && parse([]) == One(None, [])
  }

  lemma {:induction false} NothingLeft<F(!new), P>(parse: Parser<F, P>, size: nat, ts: seq<F>, n: nat, i: nat)
    requires parse(ts) == One(None, []) == parse([])
    requires i < n && size > 0
    ensures ParsePieces(parse, size, ts, n)[i] == []
    decreases n
  {
    assert ParseUpTo(parse, ts, size) == Parsed([], []);
    if i > 0 {
      NothingLeft(parse, size, [], n - 1, i - 1);
    }
  }

  function Min(a: nat, b: nat): nat {
    if a < b then a else b
  }

  /** Piece number i of a list cut into pieces of the given size. */
  function Chunk<P>(size: nat, ps: seq<P>, i: nat): seq<P> {
    ps[Min(size * i, |ps|)..Min(size * i + size, |ps|)]
  }

  lemma ChunkOfTail<P>(size: nat, ps: seq<P>, i: nat)
    requires |ps| >= size && i > 0
    ensures Chunk(size, ps[size..], i - 1) == Chunk(size, ps, i)
  {
    assert size * i == size * (i - 1) + size;
  }

  lemma FullPiece<F(!new), P>(parse: Parser<F, P>, size: nat, ls: seq<seq<F>>, ps: seq<P>, rest: seq<F>)
    requires Reads(parse, ls, ps) && |ps| >= size
    ensures ParseUpTo(parse, Flat(ls) + rest, size) == Parsed(ps[..size], Flat(ls[size..]) + rest)
  {
    var a, b := ls[..size], ls[size..];
    assert ls == a + b;
    FlatConcat(a, b);
    var tail := Flat(b) + rest;
    assert Flat(a) + tail == Flat(ls) + rest;
    ParseLines(parse, a, ps[..size], tail, size);
    assert ps[..size] + [] == ps[..size];
  }

  lemma LastPiece<F(!new), P>(parse: Parser<F, P>, size: nat, ls: seq<seq<F>>, ps: seq<P>, stop: seq<F>)
    requires Reads(parse, ls, ps) && |ps| < size && Stops(parse, stop)
    ensures ParseUpTo(parse, Flat(ls) + stop, size) == Parsed(ps, parse(stop).rest)
  {
    ParseLines(parse, ls, ps, stop, size);
    assert ps + [] == ps;
  }

  lemma Times(size: nat, n: nat)
    requires n > 0
    ensures size * n == size * (n - 1) + size && size * n >= size
  {
  }

  lemma ShortList<P>(size: nat, ps: seq<P>, i: nat)
    requires |ps| < size
    ensures Chunk(size, ps, i) == if i == 0 then ps else []
  {
    if i > 0 {
      Times(size, i);
    }
  }

  /** Cutting n pieces from a stream of lines yields the first n pieces of the list of records: the stop line
      ends a partial piece, every piece after it is empty, and what follows n full pieces is never read. */
  lemma {:induction false} PiecesOfStream<F(!new), P>(parse: Parser<F, P>, size: nat, ls: seq<seq<F>>, ps: seq<P>, rest: seq<F>,
                                                      n: nat, i: nat)
    requires Reads(parse, ls, ps) && i < n && size > 0
    requires |ps| >= size * n || Stops(parse, rest)
    ensures ParsePieces(parse, size, Flat(ls) + rest, n)[i] == Chunk(size, ps, i)
    decreases n
  {
    Times(size, n);
    if |ps| >= size {
      FullPiece(parse, size, ls, ps, rest);
      if i > 0 {
        ChunkOfTail(size, ps, i);
        PiecesOfStream(parse, size, ls[size..], ps[size..], rest, n - 1, i - 1);
      } else {
        assert Chunk(size, ps, 0) == ps[..size];
      }
    } else {
      ShortList(size, ps, i);
      LastPiece(parse, size, ls, ps, rest);
      if i > 0 {
        NothingLeft(parse, size, parse(rest).rest, n - 1, i - 1);
      }
    }
  }
}
