/** Other posts with the hashed text of given ones: a piece is checked by the hash of its text alone
    (data/piece.go:23-44, peer.go:474-481), so what it can be read as is what the check lets through. */
module Rereading {
  import opened Decimal
  import opened Delimited
  import opened Posts
  import opened PieceStream

  /** A decimal as it is printed, of a 64-bit integer. */
  predicate Canonical(t: string) {
    Itoa(Convert(t)) == t
  }

  /** The first eight fields read as a post that a stream can deliver. */
  predicate RegularPost(ts: seq<string>)
    requires |ts| >= 8
  {
    Canonical(ts[0]) && Convert(ts[0]) != -1 && Canonical(ts[3]) && Canonical(ts[4]) && Canonical(ts[5])
  }

  /** Fields that read, in eights, as posts that a stream can deliver. */
  predicate Regular(ts: seq<string>) {
    ts == [] || (|ts| >= 8 && RegularPost(ts) && Regular(ts[8..]))
  }

  function ReadPost(ts: seq<string>): (p: Post)
    requires |ts| >= 8
  {
    Post(Convert(ts[0]), ts[1], ts[2], Convert(ts[3]), Convert(ts[4]), 0, 0, Convert(ts[5]), ts[6], ts[7])
  }

  function ReadPosts(ts: seq<string>): (ps: seq<Post>)
    requires Regular(ts)
  {
    if ts == [] then [] else [ReadPost(ts)] + ReadPosts(ts[8..])
  }

  lemma ReadPostPrints(ts: seq<string>)
    requires |ts| >= 8 && RegularPost(ts)
    ensures Fields(ReadPost(ts), false) == ts[..8] && Good(ReadPost(ts))
  {
    ConvertFits(ts[0]);
    ConvertFits(ts[3]);
    ConvertFits(ts[4]);
    ConvertFits(ts[5]);
  }

  lemma ReadPostsStep(p: Post, ps: seq<Post>, line: seq<string>, ts: seq<string>)
    requires Fields(p, false) == line && Flat(Lines(ps, false)) == ts
    ensures Flat(Lines([p] + ps, false)) == line + ts
  {
    assert Lines([p] + ps, false) == [line] + Lines(ps, false);
  }

  lemma AllOfCons(p: Post, ps: seq<Post>)
    requires PlainPost(p) && Good(p) && AllPlainPosts(ps) && AllGood(ps)
    ensures AllPlainPosts([p] + ps) && AllGood([p] + ps)
  {
  }

  /** Regular fields are those of the posts they read as, and a stream can deliver these. */
  lemma {:induction false} ReadPostsPrint(ts: seq<string>)
    requires Regular(ts) && AllPlain(BAR, ts)
    ensures var ps := ReadPosts(ts); Flat(Lines(ps, false)) == ts && AllPlainPosts(ps) && AllGood(ps) && 8 * |ps| == |ts|
  {
    if ts == [] {
      assert Lines([], false) == [];
    } else {
      var p, ps := ReadPost(ts), ReadPosts(ts[8..]);
      ReadPostsPrint(ts[8..]);
      ReadPostPrints(ts);
      ReadPostsStep(p, ps, ts[..8], ts[8..]);
      assert ts[..8] + ts[8..] == ts;
      AllOfCons(p, ps);
    }
  }

  lemma ItoaCanonical(n: int)
    requires IsInt64(n)
    ensures Canonical(Itoa(n)) && Convert(Itoa(n)) == n
  {
    ConvertOfItoa(n);
  }

  lemma FieldsRegular(p: Post, rest: seq<string>)
    requires Good(p)
    ensures RegularPost(Fields(p, false) + rest)
  {
    ItoaCanonical(p.id);
    ItoaCanonical(p.size);
    ItoaCanonical(p.fileCount);
    ItoaCanonical(p.uploadDate);
    var ts := Fields(p, false) + rest;
    assert ts[0] == Itoa(p.id) && ts[3] == Itoa(p.size) && ts[4] == Itoa(p.fileCount) && ts[5] == Itoa(p.uploadDate);
  }

  /** The fields of posts that a stream can deliver are regular. */
  lemma {:induction false} LinesRegular(ps: seq<Post>)
    requires AllGood(ps)
    ensures Regular(Flat(Lines(ps, false)))
  {
    if ps == [] {
      assert Lines(ps, false) == [];
    } else {
      var rest := Flat(Lines(ps[1..], false));
      LinesRegular(ps[1..]);
      ReadPostsStep(ps[0], ps[1..], Fields(ps[0], false), rest);
      assert ps == [ps[0]] + ps[1..];
      FieldsRegular(ps[0], rest);
      assert (Fields(ps[0], false) + rest)[8..] == rest;
    }
  }

  lemma TextSplits(ps: seq<Post>)
    ensures Terminated(Tokens(BAR, Text(ps, false)), [BAR]) == Text(ps, false)
  {
    TerminatedEnds(Flat(Lines(ps, false)), BAR);
    TerminatedOfTokens(BAR, Text(ps, false));
  }

  /** The hashed text of a piece reads as at most size posts that a stream can deliver. */
  ghost predicate Rereadable(size: nat, ps: seq<Post>) {
    var ts := Tokens(BAR, Text(ps, false));
    Regular(ts) && |ts| <= 8 * size
  }

  /** The posts it reads as. */
  ghost function Reread(size: nat, ps: seq<Post>): (qs: seq<Post>)
    requires Rereadable(size, ps)
    ensures Received(size, qs) && Text(qs, false) == Text(ps, false)
  {
    var ts := Tokens(BAR, Text(ps, false));
    TokensPlain(BAR, Text(ps, false));
    ReadPostsPrint(ts);
    TextSplits(ps);
    ReadPosts(ts)
  }

  /** Some posts that a stream can deliver have the hashed text of a piece exactly when it reads in eights. */
  lemma RereadableExactly(size: nat, ps: seq<Post>)
    ensures Rereadable(size, ps) <==> exists qs :: Received(size, qs) && Text(qs, false) == Text(ps, false)
  {
    if Rereadable(size, ps) {
      var qs := Reread(size, ps);
    }
    if qs :| Received(size, qs) && Text(qs, false) == Text(ps, false) {
      TextTokens(qs, false, "");
      assert Text(qs, false) + "" == Text(qs, false) && Flat(Lines(qs, false)) + Tokens(BAR, "") == Flat(Lines(qs, false));
      LinesRegular(qs);
      FlatLength(Lines(qs, false), 8);
    }
  }

  /** Posts that a stream can deliver, with the hashed text of a piece, are its posts, counts aside, exactly when the
      piece does not hold the delimiter. */
  lemma RereadIsSame(size: nat, ps: seq<Post>, qs: seq<Post>)
    requires Received(size, qs) && Text(qs, false) == Text(ps, false)
    ensures SameButCounts(qs, ps) <==> AllPlainPosts(ps)
  {
    if AllPlainPosts(ps) {
      HashedTextDecides(qs, ps);
    }
    if SameButCounts(qs, ps) {
      SamePlain(qs, ps);
    }
  }

  lemma SamePlain(qs: seq<Post>, ps: seq<Post>)
    requires AllPlainPosts(qs) && SameButCounts(qs, ps)
    ensures AllPlainPosts(ps)
  {
    forall i | 0 <= i < |ps| ensures PlainPost(ps[i]) {
      assert Fixed(qs[i]) == Fixed(ps[i]);
    }
  }

  /** A piece can pass for other posts exactly when it holds the delimiter and its hashed text reads in eights. */
  lemma PassesForOthersExactly(size: nat, ps: seq<Post>)
    ensures (exists qs :: Received(size, qs) && Text(qs, false) == Text(ps, false) && !SameButCounts(qs, ps))
            <==> !AllPlainPosts(ps) && Rereadable(size, ps)
  {
    RereadableExactly(size, ps);
    forall qs | Received(size, qs) && Text(qs, false) == Text(ps, false) ensures SameButCounts(qs, ps) <==> AllPlainPosts(ps) {
      RereadIsSame(size, ps, qs);
    }
  }
}
