/** Mirroring a peer's posts: the hash list and its root, the piece by piece check, and the copy
    (peer.go:388-510, proto/messages.go:58-70, data/collection.go:96-111). */
module Mirroring {
  import opened Options
  import opened Delimited
  import opened Chunks
  import opened Posts
  import opened PieceStream
  import opened Rereading
  import opened PostDatabase

  const DIGEST_SIZE := 32

  ghost predicate Sized(h: Digest) {
    forall s :: |h(s)| == DIGEST_SIZE
  }

  /** Two different texts with one digest. */
  predicate Collision(h: Digest, x: string, y: string) {
    x != y && h(x) == h(y)
  }

  function Positive(n: int): nat {
    if n < 0 then 0 else n
  }

  // ---------------------------------------------------------------- hash lists

  /** The part of a hash list that n digests fill. */
  function Used(list: string, n: nat): string
    requires DIGEST_SIZE * n <= |list|
  {
    list[..DIGEST_SIZE * n]
  }

  function Slot(list: string, i: nat): string
    requires DIGEST_SIZE * i + DIGEST_SIZE <= |list|
  {
    list[DIGEST_SIZE * i..DIGEST_SIZE * i + DIGEST_SIZE]
  }

  lemma UsedStep(list: string, i: nat)
    requires DIGEST_SIZE * i + DIGEST_SIZE <= |list|
    ensures Used(list, i + 1) == Used(list, i) + Slot(list, i)
  {
  }

  /** A collection by its hash list and the text fed to its root hash. */
  class Collection {
    var hashList: string
    var fed: string

    constructor (list: string)
      ensures hashList == list && fed == ""
    {
      hashList, fed := list, "";
    }

    /** Collection.Rehash: every whole digest of the list, in order. */
    method Rehash()
      modifies this
      ensures hashList == old(hashList)
      ensures fed == Used(hashList, |hashList| / DIGEST_SIZE)
    {
      var state := "";
      var i := 0;
      while i < |hashList| / DIGEST_SIZE
        invariant 0 <= i <= |hashList| / DIGEST_SIZE && hashList == old(hashList)
        invariant state == Used(hashList, i)
      {
        UsedStep(hashList, i);
        state := state + hashList[DIGEST_SIZE * i..DIGEST_SIZE * i + DIGEST_SIZE];
        i := i + 1;
      }
      fed := state;
    }

    method Hash(h: Digest) returns (r: string)
      ensures r == h(fed)
    {
      r := h(fed);
    }
  }

  /** What a check of a hash list comes to; a size beyond it is a slice out of range. A list is given up to the
      capacity of its slice, which is what bounds a slice of it. */
  datatype Verdict = Accepted | Invalid | OutOfRange

  /** MessageCollection.Verify */
  method Verify(h: Digest, list: string, size: int, root: string) returns (v: Verdict)
    ensures v.OutOfRange? <==> 32 * Positive(size) > |list|
    ensures !v.OutOfRange? ==> (v.Accepted? <==> h(list[..32 * Positive(size)]) == root)
  {
    var fed := "";
    var i := 0;
    while i < size
      invariant 0 <= i <= Positive(size) && DIGEST_SIZE * i <= |list|
      invariant fed == Used(list, i)
    {
      if DIGEST_SIZE * i + DIGEST_SIZE > |list| {
        return OutOfRange;
      }
      UsedStep(list, i);
      fed := fed + list[DIGEST_SIZE * i..DIGEST_SIZE * i + DIGEST_SIZE];
      i := i + 1;
    }
    v := if h(fed) == root then Accepted else Invalid;
  }

  // ---------------------------------------------------------------- what a publisher signs

  function Digests(h: Digest, pieces: seq<seq<Post>>): seq<string> {
    seq(|pieces|, i requires 0 <= i < |pieces| => h(Text(pieces[i], false)))
  }

  /** The hash list of a run of pieces. */
  function HashList(h: Digest, pieces: seq<seq<Post>>): string {
    Flat(Digests(h, pieces))
  }

  lemma FlatSlot<C>(ls: seq<seq<C>>, width: nat, i: nat)
    requires AllWide(ls, width) && i < |ls|
    ensures 0 <= width * i <= width * i + width <= |Flat(ls)| && Flat(ls)[width * i..width * i + width] == ls[i]
  {
    var a, b := ls[..i], ls[i + 1..];
    assert ls == a + [ls[i]] + b;
    FlatConcat(a + [ls[i]], b);
    FlatConcat(a, [ls[i]]);
    assert Flat([ls[i]]) == ls[i];
    FlatLength(a, width);
    assert Flat(ls) == Flat(a) + ls[i] + Flat(b);
  }

  lemma HashListSlots(h: Digest, pieces: seq<seq<Post>>, i: nat)
    requires Sized(h)
    ensures |HashList(h, pieces)| == DIGEST_SIZE * |pieces|
    ensures i < |pieces| ==> Slot(HashList(h, pieces), i) == h(Text(pieces[i], false))
  {
    var ds := Digests(h, pieces);
    assert forall k :: 0 <= k < |ds| ==> ds[k] == h(Text(pieces[k], false));
    FlatLength(ds, DIGEST_SIZE);
    if i < |ds| {
      FlatSlot(ds, DIGEST_SIZE, i);
    }
  }

  /** The mirror's check of one piece. */
  predicate Matches(h: Digest, list: string, pieces: seq<seq<Post>>, i: nat)
    requires i < |pieces| && DIGEST_SIZE * i + DIGEST_SIZE <= |list|
  {
    Slot(list, i) == h(Text(pieces[i], false))
  }

  ghost predicate AllMatch(h: Digest, list: string, pieces: seq<seq<Post>>) {
    DIGEST_SIZE * |pieces| <= |list| && forall i :: 0 <= i < |pieces| ==> Matches(h, list, pieces, i)
  }

  /** A list that passes the check against the root of a publisher's list is the publisher's list. */
  lemma ListSoundness(h: Digest, list: string, n: nat, published: seq<seq<Post>>)
    requires Sized(h) && DIGEST_SIZE * n <= |list|
    requires h(Used(list, n)) == h(HashList(h, published))
    ensures Collision(h, Used(list, n), HashList(h, published)) || (n == |published| && Used(list, n) == HashList(h, published))
  {
    HashListSlots(h, published, 0);
  }

  /** A piece that passes the check against the publisher's list has the text of the publisher's piece; it is that
      piece, counts aside, exactly when the piece does not hold the delimiter. */
  lemma PieceSoundness(h: Digest, list: string, n: nat, pieces: seq<seq<Post>>, published: seq<seq<Post>>, i: nat)
    requires Sized(h) && i < |pieces| && i < n == |published| && DIGEST_SIZE * n <= |list|
    requires Used(list, n) == HashList(h, published)
    requires Matches(h, list, pieces, i) && Received(PIECE_SIZE, pieces[i])
    ensures || Collision(h, Text(pieces[i], false), Text(published[i], false))
            || (Text(pieces[i], false) == Text(published[i], false)
                && (SameButCounts(pieces[i], published[i]) <==> AllPlainPosts(published[i])))
  {
    HashListSlots(h, published, i);
    SliceOfSlice(list, 0, DIGEST_SIZE * n, DIGEST_SIZE * i, DIGEST_SIZE * i + DIGEST_SIZE);
    if Text(pieces[i], false) == Text(published[i], false) {
      RereadIsSame(PIECE_SIZE, published[i], pieces[i]);
    }
  }

  // ---------------------------------------------------------------- the mirror

  datatype Outcome = Crash | InvalidList | UpToDate | Mismatch(at: nat) | Complete

  /** What can be read of what a remote peer sends in answer to a request for a number of pieces from a first
      one on; nothing when it does not start as a gzip stream, or there is none. */
  type Reply = (int, int) -> Option<string>

  /** The pieces that come of an answer: as many as asked for, or none at all. */
  function Arrived(answer: Option<string>, size: int): (pieces: seq<seq<Post>>)
    ensures |pieces| == if answer.Some? then Positive(size) else 0
  {
    if answer.None? then [] else Pieces(answer.value, Positive(size))
  }

  /** The number of pieces that hold so many posts: the quotient rounded up. */
  function PieceCount(posts: nat): (n: nat)
    ensures PIECE_SIZE * n >= posts && (n > 0 ==> PIECE_SIZE * (n - 1) < posts)
  {
    (posts + PIECE_SIZE - 1) / PIECE_SIZE
  }

  /** The number of the piece that the last of so many posts is in; the first piece when there are none. */
  predicate HoldsLast(piece: nat, posts: nat) {
    if posts == 0 then piece == 0 else 1000 * piece < posts <= 1000 * (piece + 1)
  }

  /** The first piece asked for, given how many posts are held: the last one that any of them is in. */
  function Since(count: nat): (n: nat)
    ensures HoldsLast(n, count)
  {
    var currentStore := PieceCount(count);
    if currentStore != 0 then currentStore - 1 else 0
  }

  predicate InRange(list: string, size: int) {
    DIGEST_SIZE * Positive(size) <= |list|
  }

  predicate Accepts(h: Digest, list: string, size: int, root: string)
    requires InRange(list, size)
  {
    h(Used(list, Positive(size))) == root
  }

  function Somes<T>(ts: seq<T>): seq<Option<T>> {
    seq(|ts|, i requires 0 <= i < |ts| => Some(ts[i]))
  }

  lemma {:induction false} SentSomes<T>(ts: seq<T>)
    ensures Sent(Somes(ts)) == ts
    ensures Sent(Somes(ts) + [None]) == ts
  {
    if ts != [] {
      var cs := Somes(ts);
      assert cs[1..] == Somes(ts[1..]);
      assert (cs + [None])[1..] == Somes(ts[1..]) + [None];
      SentSomes(ts[1..]);
    }
  }

  ghost predicate Holds(objects: seq<Piece>, pieces: seq<seq<Post>>)
    reads objects
  {
    |objects| == |pieces| && forall i :: 0 <= i < |objects| ==> objects[i].posts == pieces[i] && objects[i].Stored()
  }

  /** The loop over the pieces as they arrive: each is checked and passed on, until one does not match. */
  method CheckPieces(h: Digest, list: string, objects: seq<Piece>, ghost pieces: seq<seq<Post>>)
    returns (channel: seq<Option<seq<Post>>>, failed: bool)
    requires Holds(objects, pieces) && DIGEST_SIZE * |pieces| <= |list|
    ensures |channel| <= |pieces| && failed == (|channel| < |pieces|)
    ensures channel == Somes(pieces[..|channel|])
    ensures forall j :: 0 <= j < |channel| ==> Matches(h, list, pieces, j)
    ensures failed ==> !Matches(h, list, pieces, |channel|)
  {
    channel := [];
    while |channel| < |objects|
      invariant |channel| <= |pieces|
      invariant channel == Somes(pieces[..|channel|])
      invariant forall j :: 0 <= j < |channel| ==> Matches(h, list, pieces, j)
      decreases |objects| - |channel|
    {
      var i := |channel|;
      var hash := objects[i].Hash(h);
      if list[DIGEST_SIZE * i..DIGEST_SIZE * i + DIGEST_SIZE] != hash {
        return channel, true;
      }
      channel := channel + [Some(objects[i].posts)];
    }
    failed := false;
  }

  /** Request, receive and check the pieces. Without a stream to read the channel of pieces is closed at once. */
  method Download(h: Digest, list: string, size: int, answer: Option<string>) returns (channel: seq<Option<seq<Post>>>, failed: bool)
    requires InRange(list, size)
    ensures var pieces := Arrived(answer, size);
            && |channel| <= |pieces| && failed == (|channel| < |pieces|)
            && channel == Somes(pieces[..|channel|])
            && (forall j :: 0 <= j < |channel| ==> Matches(h, list, pieces, j))
            && (failed ==> !Matches(h, list, pieces, |channel|))
  {
    if answer.None? {
      return [], false;
    }
    var er := new ErrorReader(answer.value);
    var objects := ReadPieces(er, size);
    channel, failed := CheckPieces(h, list, objects, Arrived(answer, size));
  }

  lemma NoNone<T>(ts: seq<T>)
    ensures None !in Somes(ts)
  {
  }

  /** The insertion of what was passed on: to the end if all pieces matched, and stuck waiting if not. */
  method Deliver(db: Database, channel: seq<Option<seq<Post>>>, failed: bool, ghost passed: seq<seq<Post>>)
    requires channel == Somes(passed)
    modifies db
    ensures db.rows == InsertAll(old(db.rows), Flat(passed[..if failed then Committed(|passed|) else |passed|]))
  {
    SentSomes(passed);
    if failed {
      NoNone(passed);
      var _ := db.InsertPieces(channel);
    } else {
      assert (channel + [None])[|channel|] == None;
      var _ := db.InsertPieces(channel + [None]);
    }
  }

  /** Where the pieces stop matching. */
  ghost predicate FirstMismatch(h: Digest, list: string, pieces: seq<seq<Post>>, at: nat) {
    && at < |pieces| && DIGEST_SIZE * |pieces| <= |list| && !Matches(h, list, pieces, at)
    && forall i :: 0 <= i < at ==> Matches(h, list, pieces, i)
  }

  /** How a transfer of pieces into a table ends: all of them inserted, or only whole batches of those before
      the first mismatch. */
  ghost predicate Transferred(h: Digest, list: string, pieces: seq<seq<Post>>, before: Rows, r: Outcome, after: Rows) {
    match r
    case Complete => AllMatch(h, list, pieces) && after == InsertAll(before, Flat(pieces))
    case Mismatch(at) => FirstMismatch(h, list, pieces, at) && after == InsertAll(before, Flat(pieces[..Committed(at)]))
    case _ => false
  }

  lemma PrefixOfPrefix<T>(s: seq<T>, k: nat, c: nat)
    requires c <= k <= |s|
    ensures s[..k][..c] == s[..c]
  {
  }

  /** The transfer proper: every piece of an answer checked against the list, and what matched inserted. */
  method Copy(db: Database, h: Digest, list: string, size: int, answer: Option<string>) returns (r: Outcome)
    requires InRange(list, size)
    modifies db
    ensures Transferred(h, list, Arrived(answer, size), old(db.rows), r, db.rows)
  {
    ghost var pieces := Arrived(answer, size);
    var channel, failed := Download(h, list, size, answer);
    var k := |channel|;
    Deliver(db, channel, failed, pieces[..k]);
    if failed {
      r := Mismatch(k);
      PrefixOfPrefix(pieces, k, Committed(k));
    } else {
      r := Complete;
      assert pieces[..k] == pieces && pieces[..k][..k] == pieces;
    }
  }

  /** Peer.Mirror from the answer to the hash list request on. The rows are those once everything sent to the
      database has been dealt with; since is the first piece of the request for pieces, if one is made. */
  method Mirror(db: Database, h: Digest, root: string, postCount: int, list: string, size: int, reply: Reply)
    returns (r: Outcome, since: nat)
    modifies db
    ensures r.Crash? <==> !InRange(list, size)
    ensures r.InvalidList? <==> InRange(list, size) && !Accepts(h, list, size, root)
    ensures r.UpToDate? <==> InRange(list, size) && Accepts(h, list, size, root) && MaxId(old(db.rows)) == postCount
    ensures if r.Crash? || r.InvalidList? || r.UpToDate? then db.rows == old(db.rows)
            else && HoldsLast(since, MaxId(old(db.rows)))
                 && Transferred(h, list, Arrived(reply(since, size), size), old(db.rows), r, db.rows)
  {
    var verdict := Verify(h, list, size, root);
    if verdict.OutOfRange? {
      return Crash, 0;
    }
    if verdict.Invalid? {
      return InvalidList, 0;
    }
    var count := db.PostCount();
    if count == postCount {
      return UpToDate, 0;
    }
    since := Since(count);
    r := Copy(db, h, list, size, reply(since, size));
  }

  // ---------------------------------------------------------------- mirroring an honest publisher

  function Cut(ps: seq<Post>, n: nat): seq<seq<Post>> {
    seq(n, i requires 0 <= i < n => Chunk(PIECE_SIZE, ps, i))
  }

  /** The pieces of a table. */
  function Published(rows: Rows): seq<seq<Post>> {
    Cut(rows, PieceCount(|rows|))
  }

  /** A table as publishers have them: built by inserts, of Go ints. Their texts may hold the delimiter. */
  ghost predicate Publishable(rows: Rows) {
    Table(rows) && forall i :: 0 <= i < |rows| ==> Machine(rows[i])
  }

  /** What a publisher answers to a request for all its pieces' worth from a given piece on. */
  ghost function Served(rows: Rows, start: nat): seq<seq<Post>> {
    var n := PieceCount(|rows|);
    Pieces(Stream(Requested(rows, start, n)), n)
  }

  lemma SelectPlain(rows: Rows, id: nat, limit: nat)
    requires Numbered(rows) && AllPlainPosts(rows)
    ensures AllPlainPosts(Select(rows, id, limit))
  {
    SelectIsSlice(rows, id, limit);
  }

  lemma ServedAt(rows: Rows, start: nat, i: nat)
    requires Publishable(rows) && AllPlainPosts(rows) && i < PieceCount(|rows|)
    ensures Served(rows, start)[i] == Chunk(PIECE_SIZE, rows, start + i)
  {
    var n := PieceCount(|rows|);
    SelectPlain(rows, PIECE_SIZE * start, PIECE_SIZE * n);
    ServedPieces(rows, start, n);
    assert Served(rows, start)[i] == Select(rows, PIECE_SIZE * (start + i), PIECE_SIZE);
    SelectIsSlice(rows, PIECE_SIZE * (start + i), PIECE_SIZE);
  }

  lemma {:induction false} FlatOfCut(ps: seq<Post>, n: nat)
    ensures Flat(Cut(ps, n)) == ps[..Min(PIECE_SIZE * n, |ps|)]
  {
    if n > 0 {
      FlatOfCut(ps, n - 1);
      var last := Chunk(PIECE_SIZE, ps, n - 1);
      assert Cut(ps, n) == Cut(ps, n - 1) + [last];
      FlatConcat(Cut(ps, n - 1), [last]);
      assert Flat([last]) == last;
    }
  }

  lemma {:induction false} InsertKnown(rows: Rows, ps: seq<Post>)
    requires forall i :: 0 <= i < |ps| ==> Known(rows, ps[i].infoHash)
    ensures InsertAll(rows, ps) == rows
  {
    if ps != [] {
      assert Known(rows, ps[0].infoHash);
      InsertKnown(rows, ps[1..]);
    }
  }

  /** A table that holds the first rows of another is completed by inserting all of the other. */
  lemma CompletesPrefix(rows: Rows, k: nat)
    requires Table(rows) && k <= |rows|
    ensures InsertAll(rows[..k], rows) == rows
  {
    var a, b := rows[..k], rows[k..];
    assert rows == a + b;
    InsertAllConcat(a, a, b);
    forall i | 0 <= i < |a| ensures Known(a, a[i].infoHash) {
    }
    InsertKnown(a, a);
    InsertAllOf(a, b);
  }

  lemma ServedFromStart(rows: Rows)
    requires Publishable(rows) && AllPlainPosts(rows)
    ensures Served(rows, 0) == Published(rows)
  {
    forall i | 0 <= i < PieceCount(|rows|) ensures Served(rows, 0)[i] == Published(rows)[i] {
      ServedAt(rows, 0, i);
    }
  }

  lemma OwnListMatches(h: Digest, pieces: seq<seq<Post>>)
    requires Sized(h)
    ensures AllMatch(h, HashList(h, pieces), pieces)
  {
    HashListSlots(h, pieces, 0);
    forall i | 0 <= i < |pieces| ensures Matches(h, HashList(h, pieces), pieces, i) {
      HashListSlots(h, pieces, i);
    }
  }

  lemma PublishedWhole(rows: Rows)
    ensures Flat(Published(rows)) == rows
  {
    FlatOfCut(rows, PieceCount(|rows|));
    assert rows[..|rows|] == rows;
  }

  /** A follower that holds up to 1000 of the posts of a publisher whose texts do not hold the delimiter sees
      every piece match, and ends with the publisher's table, ids included. */
  lemma FollowerCompletes(h: Digest, rows: Rows, k: nat)
    requires Sized(h) && Publishable(rows) && AllPlainPosts(rows) && k <= |rows| && k <= PIECE_SIZE
    ensures AllMatch(h, HashList(h, Published(rows)), Served(rows, Since(k)))
    ensures InsertAll(rows[..k], Flat(Served(rows, Since(k)))) == rows
  {
    ServedFromStart(rows);
    OwnListMatches(h, Published(rows));
    PublishedWhole(rows);
    CompletesPrefix(rows, k);
  }

  lemma RequestedFirst(rows: Rows, start: nat, n: nat)
    requires Publishable(rows) && PIECE_SIZE * start < |rows| && n > 0
    ensures var ps := Requested(rows, start, n); ps != [] && AllGood(ps) && ps[0].id == PIECE_SIZE * start + 1
  {
    var at, limit := PIECE_SIZE * start, start + PIECE_SIZE * n;
    SelectIsSlice(rows, at, limit);
    SelectGood(rows, at, limit);
    assert at < Min(at + limit, |rows|) && Select(rows, at, limit)[0] == rows[at];
  }

  lemma StreamFirst(ps: seq<Post>, n: nat)
    requires ps != [] && AllGood(ps) && n > 0
    ensures var pieces := Pieces(Stream(ps), n); pieces[0] != [] && pieces[0][0].id == ps[0].id
  {
    FirstKeepsId(ps, Text([SENTINEL], true), PIECE_SIZE);
  }

  /** The first post of the first piece served has the id asked for, whatever the texts hold. */
  lemma ServedFirst(rows: Rows, start: nat)
    requires Publishable(rows) && PIECE_SIZE * start < |rows|
    ensures var pieces := Served(rows, start); pieces != [] && pieces[0] != [] && pieces[0][0].id == PIECE_SIZE * start + 1
  {
    var n := PieceCount(|rows|);
    RequestedFirst(rows, start, n);
    StreamFirst(Requested(rows, start, n), n);
  }

  lemma FirstComparison(h: Digest, rows: Rows, pieces: seq<seq<Post>>)
    requires Sized(h) && |pieces| == |Published(rows)| > 0
    ensures FirstMismatch(h, HashList(h, Published(rows)), pieces, 0)
            <==> h(Text(pieces[0], false)) != h(Text(Chunk(PIECE_SIZE, rows, 0), false))
  {
    HashListSlots(h, Published(rows), 0);
  }

  /** A follower that holds more than 1000 posts, but not all, asks from a later piece on and compares it with
      the first digest: that never matches unless the hash function is broken. */
  lemma FollowerIsStuck(h: Digest, rows: Rows, k: nat)
    requires Sized(h) && Publishable(rows) && PIECE_SIZE < k < |rows|
    ensures Served(rows, Since(k)) != []
    ensures FirstMismatch(h, HashList(h, Published(rows)), Served(rows, Since(k)), 0)
            || Collision(h, Text(Served(rows, Since(k))[0], false), Text(Chunk(PIECE_SIZE, rows, 0), false))
  {
    ServedFirst(rows, Since(k));
    FirstComparison(h, rows, Served(rows, Since(k)));
    var asked, first := Served(rows, Since(k))[0], Chunk(PIECE_SIZE, rows, 0);
    assert first[0] == rows[0];
    if Text(asked, false) == Text(first, false) {
      FirstIdShows(asked, first);
    }
  }

  lemma {:induction false} InsertedPlain(rows: Rows, ps: seq<Post>)
    requires AllPlainPosts(ps)
    ensures var after := InsertAll(rows, ps); rows <= after && AllPlainPosts(after[|rows|..])
    decreases ps
  {
    if ps != [] {
      InsertedPlain(Insert(rows, ps[0]), ps[1..]);
      InsertedPlainStep(rows, ps[0], InsertAll(rows, ps));
    }
  }

  lemma InsertedPlainStep(rows: Rows, p: Post, after: Rows)
    requires PlainPost(p)
    requires var next := Insert(rows, p); next <= after && AllPlainPosts(after[|next|..])
    ensures rows <= after && AllPlainPosts(after[|rows|..])
  {
    var next := Insert(rows, p);
    assert after == next + after[|next|..];
    forall i | |rows| <= i < |after| ensures PlainPost(after[i]) {
      assert i >= |next| ==> after[i] == after[|next|..][i - |next|];
    }
  }

  lemma {:induction false} FlatPlainPosts(pieces: seq<seq<Post>>)
    requires forall i :: 0 <= i < |pieces| ==> AllPlainPosts(pieces[i])
    ensures AllPlainPosts(Flat(pieces))
  {
    if pieces != [] {
      FlatPlainPosts(pieces[1..]);
    }
  }

  lemma PlainHalves(rows: Rows, k: nat)
    requires k <= |rows|
    ensures AllPlainPosts(rows) <==> AllPlainPosts(rows[..k]) && AllPlainPosts(rows[k..])
  {
    if AllPlainPosts(rows[..k]) && AllPlainPosts(rows[k..]) {
      forall i | 0 <= i < |rows| ensures PlainPost(rows[i]) {
        if i < k { assert rows[i] == rows[..k][i]; } else { assert rows[i] == rows[k..][i - k]; }
      }
    }
  }

  /** What pieces from a stream add to a table does not hold the delimiter. */
  lemma AddedIsPlain(text: string, n: nat, before: Rows, after: Rows)
    requires after == InsertAll(before, Flat(Pieces(text, n)))
    ensures before <= after && AllPlainPosts(after[|before|..])
  {
    forall i | 0 <= i < n ensures AllPlainPosts(Pieces(text, n)[i]) {
      PiecesArePlain(text, n, i);
    }
    FlatPlainPosts(Pieces(text, n));
    InsertedPlain(before, Flat(Pieces(text, n)));
  }

  /** A transfer from a publisher to a follower that holds up to 1000 of its posts, none with the delimiter,
      completes with the publisher's table exactly when none of the publisher's holds it; to one that holds more
      but not all, it stops at once. */
  lemma PublisherOutcome(h: Digest, rows: Rows, k: nat, r: Outcome, after: Rows)
    requires Sized(h) && Publishable(rows) && k < |rows|
    requires Transferred(h, HashList(h, Published(rows)), Served(rows, Since(k)), rows[..k], r, after)
    ensures k <= PIECE_SIZE && AllPlainPosts(rows[..k]) ==> ((r.Complete? && after == rows) <==> AllPlainPosts(rows))
    ensures k > PIECE_SIZE ==>
              && Served(rows, Since(k)) != []
              && ((r == Mismatch(0) && after == rows[..k])
                  || Collision(h, Text(Served(rows, Since(k))[0], false), Text(Chunk(PIECE_SIZE, rows, 0), false)))
  {
    if k <= PIECE_SIZE {
      SmallFollower(h, rows, k, r, after);
    } else {
      var list, pieces := HashList(h, Published(rows)), Served(rows, Since(k));
      FollowerIsStuck(h, rows, k);
      assert r.Complete? ==> Matches(h, list, pieces, 0);
      assert pieces[..Committed(0)] == [];
    }
  }

  lemma SmallFollower(h: Digest, rows: Rows, k: nat, r: Outcome, after: Rows)
    requires Sized(h) && Publishable(rows) && k < |rows| && k <= PIECE_SIZE
    requires Transferred(h, HashList(h, Published(rows)), Served(rows, Since(k)), rows[..k], r, after)
    ensures AllPlainPosts(rows[..k]) ==> ((r.Complete? && after == rows) <==> AllPlainPosts(rows))
  {
    if AllPlainPosts(rows) {
      FollowerCompletes(h, rows, k);
    }
    if r.Complete? && after == rows {
      var n := PieceCount(|rows|);
      AddedIsPlain(Stream(Requested(rows, Since(k), n)), n, rows[..k], after);
      PlainHalves(rows, k);
    }
  }

  /** A peer that answers every request from its table. */
  ghost predicate Serves(rows: Rows, reply: Reply) {
    forall start: nat, length: nat :: reply(start, length) == Some(Stream(Requested(rows, start, length)))
  }

  lemma HeldRows(rows: Rows, k: nat)
    requires Table(rows) && k <= |rows|
    ensures MaxId(rows[..k]) == k
  {
    MaxIdNumbered(rows[..k], 0);
  }

  lemma PublisherArrivals(rows: Rows, k: nat, reply: Reply, since: nat)
    requires Serves(rows, reply) && HoldsLast(since, k)
    ensures Arrived(reply(since, PieceCount(|rows|)), PieceCount(|rows|)) == Served(rows, Since(k))
  {
    assert since == Since(k);
  }

  /** A publisher's list, with the size it is sent with, passes the check against the root the publisher
      computes from it, whatever spare capacity it is received with. */
  lemma PublisherListAccepted(h: Digest, rows: Rows, spare: string)
    requires Sized(h)
    ensures var list := HashList(h, Published(rows));
            var n := PieceCount(|rows|);
            && |list| / DIGEST_SIZE == n && Used(list, |list| / DIGEST_SIZE) == list
            && InRange(list + spare, n) && Accepts(h, list + spare, n, h(list))
  {
    var list := HashList(h, Published(rows));
    HashListSlots(h, Published(rows), 0);
    assert Used(list, PieceCount(|rows|)) == list;
    assert Used(list + spare, PieceCount(|rows|)) == list;
  }

  lemma SpareDoesNotMatter(h: Digest, list: string, spare: string, pieces: seq<seq<Post>>, before: Rows, r: Outcome, after: Rows)
    requires DIGEST_SIZE * |pieces| <= |list|
    ensures Transferred(h, list + spare, pieces, before, r, after) <==> Transferred(h, list, pieces, before, r, after)
  {
    forall i | 0 <= i < |pieces| ensures Matches(h, list + spare, pieces, i) <==> Matches(h, list, pieces, i) {
      assert Slot(list + spare, i) == Slot(list, i);
    }
  }

  /** A mirror of a publisher that serves its table and signs its hash list, by a follower that holds the
      first rows of that table. */
  method MirrorPublisher(db: Database, h: Digest, rows: Rows, spare: string, reply: Reply) returns (r: Outcome)
    requires Sized(h) && Publishable(rows) && Serves(rows, reply) && db.rows <= rows
    modifies db
    ensures old(db.rows) == rows ==> r.UpToDate? && db.rows == rows
    ensures old(db.rows) < rows && |old(db.rows)| <= PIECE_SIZE && AllPlainPosts(old(db.rows)) ==>
              ((r.Complete? && db.rows == rows) <==> AllPlainPosts(rows))
    ensures old(db.rows) < rows && |old(db.rows)| > PIECE_SIZE ==>
              && Served(rows, Since(|old(db.rows)|)) != []
              && ((r == Mismatch(0) && db.rows == old(db.rows))
                  || Collision(h, Text(Served(rows, Since(|old(db.rows)|))[0], false), Text(Chunk(PIECE_SIZE, rows, 0), false)))
  {
    ghost var k := |db.rows|;
    assert db.rows == rows[..k];
    HeldRows(rows, k);
    PublisherListAccepted(h, rows, spare);
    var list := HashList(h, Published(rows));
    var since;
    r, since := Mirror(db, h, h(list), |rows|, list + spare, PieceCount(|rows|), reply);
    if k < |rows| {
      PublisherArrivals(rows, k, reply, since);
      HashListSlots(h, Published(rows), 0);
      SpareDoesNotMatter(h, list, spare, Served(rows, Since(k)), rows[..k], r, db.rows);
      PublisherOutcome(h, rows, k, r, db.rows);
    }
  }

  // ---------------------------------------------------------------- mirroring anyone

  /** The texts on which the hash function must have been broken for a mirror to accept other pieces than
      those published. */
  ghost predicate Broken(h: Digest, list: string, n: nat, pieces: seq<seq<Post>>, published: seq<seq<Post>>)
    requires DIGEST_SIZE * n <= |list|
  {
    || Collision(h, Used(list, n), HashList(h, published))
    || exists i :: 0 <= i < |pieces| && i < |published| && Collision(h, Text(pieces[i], false), Text(published[i], false))
  }

  ghost predicate SamePieces(pieces: seq<seq<Post>>, published: seq<seq<Post>>) {
    |pieces| == |published| && forall i :: 0 <= i < |pieces| ==> SameButCounts(pieces[i], published[i])
  }

  lemma {:induction false} FlatSame(pieces: seq<seq<Post>>, published: seq<seq<Post>>)
    requires SamePieces(pieces, published)
    ensures SameButCounts(Flat(pieces), Flat(published))
  {
    if pieces != [] {
      FlatSame(pieces[1..], published[1..]);
      assert SameButCounts(pieces[0], published[0]);
    }
  }

  lemma SameTable(ps: seq<Post>, rows: Rows)
    requires SameButCounts(ps, rows) && Table(rows)
    ensures Table(ps)
  {
    forall i | 0 <= i < |ps| ensures ps[i].id == rows[i].id && ps[i].infoHash == rows[i].infoHash {
      assert Fixed(ps[i]) == Fixed(rows[i]);
    }
  }

  ghost predicate SameTexts(pieces: seq<seq<Post>>, published: seq<seq<Post>>) {
    |pieces| == |published| && forall i :: 0 <= i < |pieces| ==> Text(pieces[i], false) == Text(published[i], false)
  }

  /** The first m pieces, having matched, have the texts of the publisher's. */
  lemma MatchedPieces(h: Digest, rows: Rows, list: string, n: nat, pieces: seq<seq<Post>>, m: nat)
    requires Sized(h) && m <= |pieces| <= n && DIGEST_SIZE * n <= |list|
    requires h(Used(list, n)) == h(HashList(h, Published(rows)))
    requires forall i :: 0 <= i < m ==> Received(PIECE_SIZE, pieces[i]) && Matches(h, list, pieces, i)
    ensures Broken(h, list, n, pieces, Published(rows))
            || (n == |Published(rows)| && SameTexts(pieces[..m], Published(rows)[..m]))
  {
    var published := Published(rows);
    ListSoundness(h, list, n, published);
    if !Broken(h, list, n, pieces, published) {
      forall i | 0 <= i < m ensures Text(pieces[i], false) == Text(published[i], false) {
        PieceSoundness(h, list, n, pieces, published, i);
      }
    }
  }

  /** The posts of the first m pieces of a table. */
  function FirstRows(rows: Rows, m: nat): Rows {
    rows[..Min(PIECE_SIZE * m, |rows|)]
  }

  lemma CutPrefix(rows: Rows, m: nat)
    requires m <= |Published(rows)|
    ensures Flat(Published(rows)[..m]) == FirstRows(rows, m)
  {
    assert Published(rows)[..m] == Cut(rows, m);
    FlatOfCut(rows, m);
  }

  lemma {:induction false} PlainParts(pieces: seq<seq<Post>>, i: nat)
    requires AllPlainPosts(Flat(pieces)) && i < |pieces|
    ensures AllPlainPosts(pieces[i])
  {
    var all := Flat(pieces);
    if i == 0 {
      assert forall j :: 0 <= j < |pieces[0]| ==> all[j] == pieces[0][j];
    } else {
      assert forall j :: 0 <= j < |Flat(pieces[1..])| ==> all[|pieces[0]| + j] == Flat(pieces[1..])[j];
      PlainParts(pieces[1..], i - 1);
    }
  }

  /** Delivered pieces with the texts of plain ones are these, counts aside. */
  lemma PlainTextsSame(pieces: seq<seq<Post>>, published: seq<seq<Post>>)
    requires SameTexts(pieces, published) && AllPlainPosts(Flat(published))
    requires forall i :: 0 <= i < |pieces| ==> Received(PIECE_SIZE, pieces[i])
    ensures SamePieces(pieces, published)
  {
    forall i | 0 <= i < |pieces| ensures SameButCounts(pieces[i], published[i]) {
      PlainParts(published, i);
      RereadIsSame(PIECE_SIZE, published[i], pieces[i]);
    }
  }

  /** The rows a follower ends with that holds the first k and gets the first m pieces. */
  function Extent(rows: Rows, k: nat, m: nat): Rows
    requires k <= |rows|
  {
    if |FirstRows(rows, m)| <= k then rows[..k] else FirstRows(rows, m)
  }

  lemma SamePrefix(ps: seq<Post>, rows: Rows, k: nat)
    requires SameButCounts(ps, rows) && k <= |ps|
    ensures SameButCounts(ps[..k], rows[..k]) && SameButCounts(rows[..k] + ps[k..], rows)
  {
    var both := rows[..k] + ps[k..];
    forall i | 0 <= i < |both| ensures Fixed(both[i]) == Fixed(rows[i]) {
      assert Fixed(ps[i]) == Fixed(rows[i]);
    }
  }

  lemma SameIsKnown(ps: seq<Post>, rows: Rows, held: Rows)
    requires SameButCounts(ps, rows) && rows <= held
    ensures InsertAll(held, ps) == held
  {
    forall i | 0 <= i < |ps| ensures Known(held, ps[i].infoHash) {
      assert Fixed(ps[i]) == Fixed(rows[i]) && held[i] == rows[i];
    }
    InsertKnown(held, ps);
  }

  /** Inserting posts that are, counts aside, the first rows of a table into one that holds its first k keeps those
      and adds the rest. */
  lemma InsertSame(ps: seq<Post>, rows: Rows, k: nat)
    requires Table(rows) && k <= |rows| && |ps| <= |rows| && SameButCounts(ps, rows[..|ps|])
    ensures InsertAll(rows[..k], ps) == rows[..k] + if |ps| <= k then [] else ps[k..]
  {
    if |ps| <= k {
      assert rows[..|ps|] <= rows[..k];
      SameIsKnown(ps, rows[..|ps|], rows[..k]);
    } else {
      InsertBeyond(ps, rows[..|ps|], k);
      assert rows[..|ps|][..k] == rows[..k];
    }
  }

  lemma InsertBeyond(ps: seq<Post>, rows: Rows, k: nat)
    requires Table(rows) && k <= |rows| && SameButCounts(ps, rows)
    ensures InsertAll(rows[..k], ps) == rows[..k] + ps[k..]
  {
    var a, b := ps[..k], ps[k..];
    SamePrefix(ps, rows, k);
    assert ps == a + b;
    SameIsKnown(a, rows[..k], rows[..k]);
    InsertAllConcat(rows[..k], a, b);
    SameTable(rows[..k] + b, rows);
    InsertAllOf(rows[..k], b);
  }

  /** The same as the table's extent, with the rows held before as they were. */
  ghost predicate Extends(after: Rows, rows: Rows, k: nat, m: nat)
    requires k <= |rows|
  {
    rows[..k] <= after && SameButCounts(after, Extent(rows, k, m))
  }

  lemma PlainCopyExtends(pieces: seq<seq<Post>>, rows: Rows, k: nat, m: nat)
    requires Table(rows) && |pieces| == m <= |Published(rows)| && k <= |rows|
    requires SameTexts(pieces, Published(rows)[..m]) && AllPlainPosts(FirstRows(rows, m))
    requires forall i :: 0 <= i < m ==> Received(PIECE_SIZE, pieces[i])
    ensures Extends(InsertAll(rows[..k], Flat(pieces)), rows, k, m)
  {
    var all, first := Flat(pieces), FirstRows(rows, m);
    CutPrefix(rows, m);
    PlainTextsSame(pieces, Published(rows)[..m]);
    FlatSame(pieces, Published(rows)[..m]);
    assert first == rows[..|all|];
    InsertSame(all, rows, k);
    if |all| > k {
      SamePrefix(all, first, k);
      assert first[..k] == rows[..k];
    }
  }

  /** Inserting delivered pieces with the texts of a table's first pieces into a table that holds its first k rows
      extends these, counts aside, if the pieces do not hold the delimiter; and, if the rows held do not, exactly
      if the extended rows do not. */
  lemma CopyIsSame(pieces: seq<seq<Post>>, rows: Rows, k: nat, m: nat)
    requires Table(rows) && |pieces| == m <= |Published(rows)| && k <= |rows|
    requires SameTexts(pieces, Published(rows)[..m])
    requires forall i :: 0 <= i < m ==> Received(PIECE_SIZE, pieces[i])
    ensures var after := InsertAll(rows[..k], Flat(pieces));
            && (AllPlainPosts(FirstRows(rows, m)) ==> Extends(after, rows, k, m))
            && (AllPlainPosts(rows[..k]) ==> (Extends(after, rows, k, m) <==> AllPlainPosts(Extent(rows, k, m))))
  {
    var all, after := Flat(pieces), InsertAll(rows[..k], Flat(pieces));
    if AllPlainPosts(FirstRows(rows, m)) {
      PlainCopyExtends(pieces, rows, k, m);
    }
    FlatPlainPosts(pieces);
    InsertedPlain(rows[..k], all);
    if AllPlainPosts(rows[..k]) {
      if Extends(after, rows, k, m) {
        assert after[..k] == rows[..k];
        PlainHalves(after, k);
        SamePlain(after, Extent(rows, k, m));
      }
      if AllPlainPosts(Extent(rows, k, m)) {
        assert AllPlainPosts(FirstRows(rows, m)) by { PrefixPlain(rows, k, m); }
      }
    }
  }

  lemma PrefixPlain(rows: Rows, k: nat, m: nat)
    requires k <= |rows| && AllPlainPosts(Extent(rows, k, m))
    ensures AllPlainPosts(FirstRows(rows, m))
  {
    var e, f := Extent(rows, k, m), FirstRows(rows, m);
    forall i | 0 <= i < |f| ensures PlainPost(f[i]) { assert f[i] == rows[i] == e[i]; }
  }

  /** How many of the pieces that arrived a transfer left in the table. */
  function Kept(r: Outcome, arrived: nat): nat {
    if r.Mismatch? then Committed(r.at) else arrived
  }

  lemma KeptMatched(h: Digest, list: string, pieces: seq<seq<Post>>, before: Rows, r: Outcome, after: Rows)
    requires Transferred(h, list, pieces, before, r, after)
    ensures var m := Kept(r, |pieces|);
            && m <= |pieces| && DIGEST_SIZE * |pieces| <= |list|
            && (forall i :: 0 <= i < m ==> Matches(h, list, pieces, i))
            && after == InsertAll(before, Flat(pieces[..m]))
  {
    assert pieces[..|pieces|] == pieces;
  }

  lemma ArrivedReceived(answer: Option<string>, size: int, i: nat)
    requires i < |Arrived(answer, size)|
    ensures Received(PIECE_SIZE, Arrived(answer, size)[i])
  {
    PiecesAreReceived(answer.value, Positive(size), i);
  }

  /** Whatever list, size and answer a peer sends for a table whose publisher signed its root: once a mirror by a
      follower that holds the first k rows, or none, has got past the list, the pieces kept have the hashed texts of
      the publisher's first pieces. If these do not hold the delimiter, the follower ends with the rows it held, as
      they were, and after them the rest of those pieces in order, ids included and only the counts free; and if
      the rows held do not hold it, it ends so exactly if none of the rows it should end with does. Or the hash
      function was broken on texts that can be named. */
  lemma MirrorIsSound(h: Digest, rows: Rows, k: nat, list: string, size: int, answer: Option<string>, r: Outcome, after: Rows)
    requires Sized(h) && Table(rows) && k <= |rows|
    requires InRange(list, size) && Accepts(h, list, size, h(HashList(h, Published(rows))))
    requires Transferred(h, list, Arrived(answer, size), rows[..k], r, after)
    ensures var pieces := Arrived(answer, size);
            var m := Kept(r, |pieces|);
            || Broken(h, list, Positive(size), pieces, Published(rows))
            || (&& m <= |pieces| <= Positive(size) == |Published(rows)|
                && SameTexts(pieces[..m], Published(rows)[..m])
                && (AllPlainPosts(FirstRows(rows, m)) ==> Extends(after, rows, k, m))
                && (AllPlainPosts(rows[..k]) ==> (Extends(after, rows, k, m) <==> AllPlainPosts(Extent(rows, k, m)))))
  {
    var pieces := Arrived(answer, size);
    var m := Kept(r, |pieces|);
    KeptMatched(h, list, pieces, rows[..k], r, after);
    forall i | 0 <= i < m ensures Received(PIECE_SIZE, pieces[i]) {
      ArrivedReceived(answer, size, i);
    }
    MatchedPieces(h, rows, list, Positive(size), pieces, m);
    if !Broken(h, list, Positive(size), pieces, Published(rows)) {
      CopyIsSame(pieces[..m], rows, k, m);
    }
  }

  /** A mirror that completes, by a follower that holds the first k rows without the delimiter, leaves it with all the
      publisher's posts, counts aside, exactly when the answer could be read and none of the posts holds the
      delimiter, or there was nothing left to mirror; or the hash function was broken. */
  lemma CompleteIsWhole(h: Digest, rows: Rows, k: nat, list: string, size: int, answer: Option<string>, after: Rows)
    requires Sized(h) && Table(rows) && k <= |rows|
    requires InRange(list, size) && Accepts(h, list, size, h(HashList(h, Published(rows))))
    requires Transferred(h, list, Arrived(answer, size), rows[..k], Complete, after)
    ensures || Broken(h, list, Positive(size), Arrived(answer, size), Published(rows))
            || (AllPlainPosts(rows[..k]) ==>
                  (SameButCounts(after, rows) <==> (answer.Some? && AllPlainPosts(rows)) || k == |rows|))
  {
    MirrorIsSound(h, rows, k, list, size, answer, Complete, after);
    assert rows[..|rows|] == rows;
    if answer.Some? {
      KeptRows(h, list, Arrived(answer, size), rows[..k], after);
      if !Broken(h, list, Positive(size), Arrived(answer, size), Published(rows)) {
        assert Extent(rows, k, Positive(size)) == rows;
      }
    } else {
      UnreadableCompletes(h, list, size, rows[..k], Complete, after);
    }
  }

  lemma KeptRows(h: Digest, list: string, pieces: seq<seq<Post>>, before: Rows, after: Rows)
    requires Transferred(h, list, pieces, before, Complete, after)
    ensures before <= after
  {
    InsertedFirst(before, Flat(pieces));
  }

  lemma {:induction false} InsertedFirst(rows: Rows, ps: seq<Post>)
    ensures rows <= InsertAll(rows, ps)
    decreases ps
  {
    if ps != [] { InsertedFirst(Insert(rows, ps[0]), ps[1..]); }
  }

  /** Without a stream to read, every transfer completes and inserts nothing. */
  lemma UnreadableCompletes(h: Digest, list: string, size: int, before: Rows, r: Outcome, after: Rows)
    ensures Transferred(h, list, Arrived(None, size), before, r, after) <==> r == Complete && after == before
  {
  }

  /** So a publisher of one post whose answer is lost leaves an empty table and a mirror that calls itself
      complete. */
  lemma CompleteButEmpty(h: Digest)
    requires Sized(h)
    ensures var rows := [Post(1, "a", "b", 0, 0, 0, 0, 0, "", "")];
            var list := HashList(h, Published(rows));
            && Publishable(rows) && InRange(list, 1) && Accepts(h, list, 1, h(list))
            && Transferred(h, list, Arrived(None, 1), [], Complete, []) && !SameButCounts([], rows)
  {
    var rows := [Post(1, "a", "b", 0, 0, 0, 0, 0, "", "")];
    var list := HashList(h, Published(rows));
    PublisherListAccepted(h, rows, "");
    assert list + "" == list;
    UnreadableCompletes(h, list, 1, [], Complete, []);
  }

  // ---------------------------------------------------------------- publishers with the delimiter in a text

  lemma SameTextsMatch(h: Digest, pieces: seq<seq<Post>>, published: seq<seq<Post>>)
    requires Sized(h) && SameTexts(pieces, published)
    ensures AllMatch(h, HashList(h, published), pieces)
  {
    HashListSlots(h, published, 0);
    forall i | 0 <= i < |pieces| ensures Matches(h, HashList(h, published), pieces, i) {
      HashListSlots(h, published, i);
    }
  }

  lemma SameTextsUnbroken(h: Digest, pieces: seq<seq<Post>>, published: seq<seq<Post>>)
    requires Sized(h) && SameTexts(pieces, published)
    ensures DIGEST_SIZE * |pieces| <= |HashList(h, published)|
    ensures !Broken(h, HashList(h, published), |pieces|, pieces, published)
  {
    HashListSlots(h, published, 0);
    assert Used(HashList(h, published), |pieces|) == HashList(h, published);
  }

  /** An answer completes a mirror against the publisher's own list, with no collision. */
  ghost predicate Completes(h: Digest, rows: Rows, text: string, after: Rows)
    requires Sized(h)
  {
    var published := Published(rows);
    var pieces := Pieces(text, |published|);
    HashListSlots(h, published, 0);
    && Transferred(h, HashList(h, published), pieces, [], Complete, after)
    && !Broken(h, HashList(h, published), |published|, pieces, published)
  }

  /** The answer that gives every piece of a table as what its hashed text reads as. */
  ghost function RereadAll(rows: Rows): (pieces: seq<seq<Post>>)
    requires forall i :: 0 <= i < |Published(rows)| ==> Rereadable(PIECE_SIZE, Published(rows)[i])
    ensures SameTexts(pieces, Published(rows)) && forall i :: 0 <= i < |pieces| ==> Received(PIECE_SIZE, pieces[i])
  {
    var published := Published(rows);
    seq(|published|, i requires 0 <= i < |published| => Reread(PIECE_SIZE, published[i]))
  }

  /** Delivered pieces with the texts of a table's complete a mirror of it, and no hash collides. */
  lemma SameTextsComplete(h: Digest, rows: Rows, pieces: seq<seq<Post>>)
    requires Sized(h) && SameTexts(pieces, Published(rows))
    requires forall i :: 0 <= i < |pieces| ==> Received(PIECE_SIZE, pieces[i])
    ensures Completes(h, rows, StreamOf(PIECE_SIZE, pieces), InsertAll([], Flat(pieces)))
  {
    AnyPieces(PIECE_SIZE, pieces);
    assert Pieces(StreamOf(PIECE_SIZE, pieces), |pieces|) == pieces;
    SameTextsMatch(h, pieces, Published(rows));
    SameTextsUnbroken(h, pieces, Published(rows));
  }

  lemma RereadCompletes(h: Digest, rows: Rows)
    requires Sized(h) && forall i :: 0 <= i < |Published(rows)| ==> Rereadable(PIECE_SIZE, Published(rows)[i])
    ensures exists text, after :: Completes(h, rows, text, after)
  {
    SameTextsComplete(h, rows, RereadAll(rows));
  }

  lemma CompletedIsReread(h: Digest, rows: Rows, text: string, after: Rows, i: nat)
    requires Sized(h) && Completes(h, rows, text, after) && i < |Published(rows)|
    ensures Rereadable(PIECE_SIZE, Published(rows)[i])
  {
    var published := Published(rows);
    var pieces := Pieces(text, |published|);
    HashListSlots(h, published, i);
    assert Matches(h, HashList(h, published), pieces, i);
    assert Text(pieces[i], false) == Text(published[i], false);
    PiecesAreReceived(text, |published|, i);
    RereadableExactly(PIECE_SIZE, published[i]);
  }

  /** Some answer completes the mirror of a table without a collision exactly when the hashed text of each of its
      pieces reads in eights as posts that a stream can deliver. By `CompleteIsWhole` the copy is then the
      table exactly when this does not hold the delimiter. */
  lemma CompletableExactly(h: Digest, rows: Rows)
    requires Sized(h)
    ensures (exists text, after :: Completes(h, rows, text, after))
            <==> forall i :: 0 <= i < |Published(rows)| ==> Rereadable(PIECE_SIZE, Published(rows)[i])
  {
    if text, after :| Completes(h, rows, text, after) {
      forall i | 0 <= i < |Published(rows)| ensures Rereadable(PIECE_SIZE, Published(rows)[i]) {
        CompletedIsReread(h, rows, text, after, i);
      }
    }
    if forall i :: 0 <= i < |Published(rows)| ==> Rereadable(PIECE_SIZE, Published(rows)[i]) {
      RereadCompletes(h, rows);
    }
  }

  lemma OnePublished(rows: Rows)
    requires 0 < |rows| <= PIECE_SIZE
    ensures Published(rows) == [rows]
  {
    assert PieceCount(|rows|) == 1;
    assert Chunk(PIECE_SIZE, rows, 0) == rows;
  }

  /** No stream leaves a copy equal, counts aside, to a table that holds the delimiter. */
  lemma NeverWhole(rows: Rows, text: string, n: nat)
    requires !AllPlainPosts(rows)
    ensures !SameButCounts(InsertAll([], Flat(Pieces(text, n))), rows)
  {
    var after := InsertAll([], Flat(Pieces(text, n)));
    AddedIsPlain(text, n, [], after);
    assert after[0..] == after;
    if SameButCounts(after, rows) {
      SamePlain(after, rows);
    }
  }

  /** For one: a publisher of a single post whose info hash is the middle of two posts, and an answer with those
      two. The mirror completes with two posts, and no hash collides. */
  lemma TwoForOne(h: Digest, p: Post, q: Post)
    requires Sized(h) && Received(PIECE_SIZE, [p, q]) && Table([p, q])
    ensures var rows := [Merged(p, q)];
            && Publishable(rows) && Completes(h, rows, StreamOf(PIECE_SIZE, [[p, q]]), [p, q])
            && !SameButCounts([p, q], rows)
  {
    var rows, pieces := [Merged(p, q)], [[p, q]];
    assert [p, q][0] == p && [p, q][1] == q;
    OnePublished(rows);
    MergedText(p, q);
    assert SameTexts(pieces, Published(rows)) && Received(PIECE_SIZE, pieces[0]);
    SameTextsComplete(h, rows, pieces);
    CopyIsExact([p, q]);
    assert Flat(pieces) == [p, q];
  }
}
