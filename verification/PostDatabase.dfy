/** The post table: paged queries, inserts, and the batched insert of pieces from a channel
    (data/database.go, data/sql.go). */
module PostDatabase {
  import opened Options
  import opened Decimal
  import opened Delimited
  import opened Chunks
  import opened Posts
  import opened PieceStream

  // ---------------------------------------------------------------- the table as a value

  /** Rows are listed in the order of their ids, the order a query on the id returns them in. */
  type Rows = seq<Post>

  /** The rows with an id above the given one. */
  function After(rows: Rows, id: int): Rows {
    if rows == [] then [] else (if rows[0].id > id then [rows[0]] else []) + After(rows[1..], id)
  }

  /** A paged query: the first rows after an id. A negative limit is none. */
  function Select(rows: Rows, id: int, limit: int): Rows {
    var found := After(rows, id);
    if limit < 0 then found else found[..Min(limit, |found|)]
  }

  function MaxId(rows: Rows): nat {
    if rows == [] then 0 else var m := MaxId(rows[1..]); if rows[0].id > m then rows[0].id else m
  }

  predicate Known(rows: Rows, infoHash: string) {
    exists i :: 0 <= i < |rows| && rows[i].infoHash == infoHash
  }

  /** INSERT OR IGNORE: a known info hash changes nothing, a new one gets the next id. */
  function Insert(rows: Rows, p: Post): Rows {
    if Known(rows, p.infoHash) then rows else rows + [p.(id := MaxId(rows) + 1)]
  }

  function InsertAll(rows: Rows, ps: seq<Post>): Rows
    decreases ps
  {
    if ps == [] then rows else InsertAll(Insert(rows, ps[0]), ps[1..])
  }

  /** Ids count up from one. */
  ghost predicate Numbered(rows: Rows) {
    forall i :: 0 <= i < |rows| ==> rows[i].id == i + 1
  }

  ghost predicate DistinctHashes(rows: Rows) {
    forall i, j :: 0 <= i < j < |rows| ==> rows[i].infoHash != rows[j].infoHash
  }

  /** What every table built by inserts satisfies. */
  ghost predicate Table(rows: Rows) {
    Numbered(rows) && DistinctHashes(rows)
  }

  // ---------------------------------------------------------------- inserts

  lemma {:induction false} MaxIdNumbered(rows: Rows, k: nat)
    requires forall i :: 0 <= i < |rows| ==> rows[i].id == k + i + 1
    ensures MaxId(rows) == if rows == [] then 0 else k + |rows|
  {
    if rows != [] {
      MaxIdNumbered(rows[1..], k + 1);
    }
  }

  lemma InsertKeeps(rows: Rows, p: Post)
    requires Table(rows)
    ensures Table(Insert(rows, p))
    ensures Known(Insert(rows, p), p.infoHash)
  {
    MaxIdNumbered(rows, 0);
    var after := Insert(rows, p);
    if !Known(rows, p.infoHash) {
      assert after[|rows|].infoHash == p.infoHash;
    }
  }

  /** Every table reached by inserts has ids 1..n and no info hash twice. */
  lemma {:induction false} InsertAllKeeps(rows: Rows, ps: seq<Post>)
    requires Table(rows)
    ensures Table(InsertAll(rows, ps))
    decreases ps
  {
    if ps != [] {
      InsertKeeps(rows, ps[0]);
      InsertAllKeeps(Insert(rows, ps[0]), ps[1..]);
    }
  }

  lemma {:induction false} InsertAllConcat(rows: Rows, ps: seq<Post>, qs: seq<Post>)
    ensures InsertAll(rows, ps + qs) == InsertAll(InsertAll(rows, ps), qs)
    decreases ps
  {
    if ps == [] {
      assert ps + qs == qs;
    } else {
      var rs := ps + qs;
      assert rs[0] == ps[0] && rs[1..] == ps[1..] + qs;
      InsertAllConcat(Insert(rows, ps[0]), ps[1..], qs);
    }
  }

  lemma InsertNew(rows: Rows, p: Post, rest: seq<Post>)
    requires Table(rows + [p] + rest)
    ensures Insert(rows, p) == rows + [p]
  {
    var all := rows + [p] + rest;
    assert all[|rows|] == p && forall i :: 0 <= i < |rows| ==> all[i] == rows[i];
    MaxIdNumbered(rows, 0);
  }

  lemma {:induction false} InsertAllOf(rows: Rows, ps: seq<Post>)
    requires Table(rows + ps)
    ensures InsertAll(rows, ps) == rows + ps
    decreases ps
  {
    if ps == [] {
      assert rows + ps == rows;
    } else {
      assert rows + [ps[0]] + ps[1..] == rows + ps;
      InsertNew(rows, ps[0], ps[1..]);
      InsertAllOf(rows + [ps[0]], ps[1..]);
    }
  }

  /** Copying a list of posts into an empty table reproduces it, ids included, exactly when the list is itself
      a table. */
  lemma CopyIsExact(ps: seq<Post>)
    ensures InsertAll([], ps) == ps <==> Table(ps)
  {
    if Table(ps) {
      assert [] + ps == ps;
      InsertAllOf([], ps);
    }
    InsertAllKeeps([], ps);
  }

  // ---------------------------------------------------------------- paged queries

  lemma {:induction false} AfterNumbered(rows: Rows, k: nat, id: int)
    requires forall i :: 0 <= i < |rows| ==> rows[i].id == k + i + 1
    ensures After(rows, id) == rows[Min(if id > k then id - k else 0, |rows|)..]
  {
    if rows != [] {
      AfterNumbered(rows[1..], k + 1, id);
    }
  }

  /** With ids 1..n a paged query is a slice of the table. */
  lemma SelectIsSlice(rows: Rows, id: nat, limit: nat)
    requires Numbered(rows)
    ensures Select(rows, id, limit) == rows[Min(id, |rows|)..Min(id + limit, |rows|)]
  {
    AfterNumbered(rows, 0, id);
  }

  /** A negative id starts at the first row, and a negative limit goes on to the last. */
  lemma SelectOutside(rows: Rows, id: int, limit: int)
    requires Numbered(rows)
    ensures id < 0 ==> Select(rows, id, limit) == Select(rows, 0, limit)
    ensures limit < 0 && id >= 0 ==> Select(rows, id, limit) == rows[Min(id, |rows|)..]
  {
    AfterNumbered(rows, 0, id);
    AfterNumbered(rows, 0, 0);
  }

  lemma SliceOfSlice<T>(s: seq<T>, a: nat, b: nat, c: nat, d: nat)
    requires a <= b <= |s| && c <= d <= b - a
    ensures s[a..b][c..d] == s[a + c..a + d]
  {
    var u, v := s[a..b][c..d], s[a + c..a + d];
    assert |u| == |v| && forall i :: 0 <= i < |u| ==> u[i] == s[a + c + i] == v[i];
  }

  lemma ChunkOfSlice<T>(s: seq<T>, x: nat, len: nat, y: nat, size: nat)
    requires y + size <= len
    ensures var w := s[Min(x, |s|)..Min(x + len, |s|)];
            w[Min(y, |w|)..Min(y + size, |w|)] == s[Min(x + y, |s|)..Min(x + y + size, |s|)]
  {
    var a, b := Min(x, |s|), Min(x + len, |s|);
    SliceOfSlice(s, a, b, Min(y, b - a), Min(y + size, b - a));
    assert x + y >= |s| ==> a + Min(y, b - a) == |s| == a + Min(y + size, b - a);
  }

  lemma SelectOfSelect(rows: Rows, x: nat, len: nat, y: nat, size: nat)
    requires Numbered(rows) && y + size <= len
    ensures var w := Select(rows, x, len); w[Min(y, |w|)..Min(y + size, |w|)] == Select(rows, x + y, size)
  {
    SelectIsSlice(rows, x, len);
    SelectIsSlice(rows, x + y, size);
    ChunkOfSlice(rows, x, len, y, size);
  }

  /** Piece number i of the posts that a request for several pieces asks for is what a query for that
      piece returns. */
  lemma WindowChunk(rows: Rows, start: nat, length: nat, i: nat)
    requires Numbered(rows) && i < length
    ensures Chunk(PIECE_SIZE, Select(rows, PIECE_SIZE * start, PIECE_SIZE * length), i) == Select(rows, PIECE_SIZE * (start + i), PIECE_SIZE)
  {
    SelectOfSelect(rows, PIECE_SIZE * start, PIECE_SIZE * length, PIECE_SIZE * i, PIECE_SIZE);
  }

  /** The rows a request is answered with, of which the limit lets through start too many. */
  function Requested(rows: Rows, start: int, length: int): Rows {
    Select(rows, PIECE_SIZE * start, start + PIECE_SIZE * length)
  }

  /** The rows a request is answered with, counted from the first row: a thousand a piece, and as many more as the
      number of the first piece. */
  lemma RequestedIsSlice(rows: Rows, start: nat, length: nat)
    requires Numbered(rows)
    ensures Requested(rows, start, length) ==
            rows[Min(1000 * start, |rows|)..Min(1000 * start + start + 1000 * length, |rows|)]
  {
    SelectIsSlice(rows, 1000 * start, start + 1000 * length);
  }

  lemma RequestedWindow(rows: Rows, start: nat, length: nat)
    requires Numbered(rows)
    ensures var window := Select(rows, PIECE_SIZE * start, PIECE_SIZE * length);
            var all := Requested(rows, start, length);
            |window| <= |all| && all[..|window|] == window && (|window| < PIECE_SIZE * length ==> all == window)
  {
    SelectIsSlice(rows, PIECE_SIZE * start, PIECE_SIZE * length);
    SelectIsSlice(rows, PIECE_SIZE * start, start + PIECE_SIZE * length);
  }

  lemma SelectGood(rows: Rows, id: nat, limit: nat)
    requires Numbered(rows) && forall i :: 0 <= i < |rows| ==> Machine(rows[i])
    ensures AllGood(Select(rows, id, limit))
  {
    SelectIsSlice(rows, id, limit);
  }

  lemma StreamSplit(window: seq<Post>, extra: seq<Post>)
    ensures Stream(window + extra) == Text(window, true) + (Text(extra, true) + Text([SENTINEL], true))
  {
    TextConcat(window, extra, true);
  }

  /** A stream may go on after the posts asked for. */
  lemma PiecesOfLonger(window: seq<Post>, extra: seq<Post>, length: nat, i: nat)
    requires AllGood(window) && AllPlainPosts(window) && i < length
    requires extra == [] || |window| == PIECE_SIZE * length
    ensures Pieces(Stream(window + extra), length)[i] == Chunk(PIECE_SIZE, window, i)
  {
    if extra == [] {
      assert window + extra == window;
      PiecesOfPosts(window, length, i);
    } else {
      StreamSplit(window, extra);
      PiecesOfFullPosts(window, Text(extra, true) + Text([SENTINEL], true), length, i);
    }
  }

  lemma ServedWindow(rows: Rows, start: nat, length: nat, i: nat)
    requires Numbered(rows) && i < length
    requires forall j :: 0 <= j < |rows| ==> Machine(rows[j])
    requires AllPlainPosts(Select(rows, PIECE_SIZE * start, PIECE_SIZE * length))
    ensures Pieces(Stream(Requested(rows, start, length)), length)[i] == Chunk(PIECE_SIZE, Select(rows, PIECE_SIZE * start, PIECE_SIZE * length), i)
  {
    var window := Select(rows, PIECE_SIZE * start, PIECE_SIZE * length);
    var all := Requested(rows, start, length);
    RequestedWindow(rows, start, length);
    SelectGood(rows, PIECE_SIZE * start, PIECE_SIZE * length);
    assert all == window + all[|window|..];
    PiecesOfLonger(window, all[|window|..], length, i);
  }

  lemma PlainThroughChunks(ps: seq<Post>, n: nat)
    requires |ps| <= PIECE_SIZE * n
    requires forall i :: 0 <= i < n ==> AllPlainPosts(Chunk(PIECE_SIZE, ps, i))
    ensures AllPlainPosts(ps)
  {
    forall j | 0 <= j < |ps| ensures PlainPost(ps[j]) {
      var i := j / PIECE_SIZE;
      assert Chunk(PIECE_SIZE, ps, i)[j - PIECE_SIZE * i] == ps[j];
    }
  }

  /** What the requesting end cuts from the answer to a request for any range of pieces is, piece by piece,
      what the serving end's own table holds for them, exactly when no text in the range holds the
      delimiter. Rows past the range, which the answer may include, never matter. */
  lemma ServedPieces(rows: Rows, start: nat, length: nat)
    requires Numbered(rows) && forall i :: 0 <= i < |rows| ==> Machine(rows[i])
    ensures (forall i :: 0 <= i < length ==>
               Pieces(Stream(Requested(rows, start, length)), length)[i] == Select(rows, PIECE_SIZE * (start + i), PIECE_SIZE))
            <==> AllPlainPosts(Select(rows, PIECE_SIZE * start, PIECE_SIZE * length))
  {
    var window := Select(rows, PIECE_SIZE * start, PIECE_SIZE * length);
    var text := Stream(Requested(rows, start, length));
    forall i | 0 <= i < length ensures Chunk(PIECE_SIZE, window, i) == Select(rows, PIECE_SIZE * (start + i), PIECE_SIZE) {
      WindowChunk(rows, start, length, i);
    }
    if AllPlainPosts(window) {
      forall i | 0 <= i < length ensures Pieces(text, length)[i] == Chunk(PIECE_SIZE, window, i) {
        ServedWindow(rows, start, length, i);
      }
    }
    if forall i :: 0 <= i < length ==> Pieces(text, length)[i] == Select(rows, PIECE_SIZE * (start + i), PIECE_SIZE) {
      forall i | 0 <= i < length ensures AllPlainPosts(Chunk(PIECE_SIZE, window, i)) {
        PiecesArePlain(text, length, i);
        assert Pieces(text, length)[i] == Select(rows, PIECE_SIZE * (start + i), PIECE_SIZE);
      }
      PlainThroughChunks(window, length);
    }
  }

  // ---------------------------------------------------------------- the database as an object

  /** What was sent on a channel before the nil that ends it. */
  function Sent<T>(channel: seq<Option<T>>): seq<T> {
    if channel == [] || channel[0].None? then [] else [channel[0].value] + Sent(channel[1..])
  }

  /** The first i elements have been received, and none was nil. */
  ghost predicate Taken<T>(channel: seq<Option<T>>, i: nat) {
    && i <= |channel| && i <= |Sent(channel)|
    && (forall j :: 0 <= j < i ==> channel[j].Some?)
    && Sent(channel)[i..] == Sent(channel[i..])
  }

  lemma Receive<T>(channel: seq<Option<T>>, i: nat)
    requires Taken(channel, i) && i < |channel|
    ensures channel[i].None? ==> |Sent(channel)| == i
    ensures channel[i].Some? ==> Taken(channel, i + 1) && Sent(channel)[i] == channel[i].value
  {
    var rest := channel[i..];
    assert rest[0] == channel[i] && rest[1..] == channel[i + 1..];
    if channel[i].Some? {
      assert Sent(channel)[i + 1..] == Sent(channel)[i..][1..];
      assert Sent(channel)[i] == Sent(channel)[i..][0];
    }
  }

  lemma InsertNext(rows: Rows, pieces: seq<seq<Post>>, i: nat)
    requires i < |pieces|
    ensures InsertAll(InsertAll(rows, Flat(pieces[..i])), pieces[i]) == InsertAll(rows, Flat(pieces[..i + 1]))
  {
    assert pieces[..i + 1] == pieces[..i] + [pieces[i]];
    FlatConcat(pieces[..i], [pieces[i]]);
    assert Flat([pieces[i]]) == pieces[i];
    InsertAllConcat(rows, Flat(pieces[..i]), pieces[i]);
  }

  /** How many of the pieces taken are committed while the channel is still open: each batch is committed
      when the first piece after it arrives. */
  function Committed(taken: nat): (n: nat)
    ensures n <= taken
  {
    if taken == 0 then 0 else (taken - 1) / BATCH * BATCH
  }

  const BATCH := 99

  /** Whole batches of 99 are committed, and at least one piece and at most a batch is not. */
  lemma CommittedExactly(taken: nat)
    requires taken > 0
    ensures Committed(taken) % 99 == 0 && Committed(taken) < taken <= Committed(taken) + 99
  {
  }

  lemma CommittedBatches(taken: nat, open: nat, full: nat)
    requires open <= BATCH && (open == 0 ==> taken == 0) && taken == BATCH * full + open
    ensures Committed(taken) == BATCH * full
  {
  }

  /** One insert statement after the other in an open transaction. */
  method InsertPosts(tx: Rows, posts: seq<Post>) returns (r: Rows)
    ensures r == InsertAll(tx, posts)
  {
    r := tx;
    var i := 0;
    while i < |posts|
      invariant 0 <= i <= |posts|
      invariant InsertAll(r, posts[i..]) == InsertAll(tx, posts)
    {
      assert posts[i..][0] == posts[i] && posts[i..][1..] == posts[i + 1..];
      r := Insert(r, posts[i]);
      i := i + 1;
    }
  }

  /** The table after the first i pieces on a channel. */
  ghost function Filled(rows: Rows, channel: seq<Option<seq<Post>>>, i: nat): Rows
    requires i <= |Sent(channel)|
  {
    InsertAll(rows, Flat(Sent(channel)[..i]))
  }

  /** The posts of the piece just received. */
  method InsertReceived(tx: Rows, channel: seq<Option<seq<Post>>>, i: nat, ghost rows: Rows) returns (r: Rows)
    requires Taken(channel, i) && i < |channel| && channel[i].Some?
    requires tx == Filled(rows, channel, i)
    ensures Taken(channel, i + 1)
    ensures r == Filled(rows, channel, i + 1)
  {
    Receive(channel, i);
    InsertNext(rows, Sent(channel), i);
    r := InsertPosts(tx, channel[i].value);
  }

  /** The loop over the rows of a page. */
  method CollectRows(found: Rows, store: bool) returns (piece: Piece)
    requires |found| <= PIECE_SIZE
    ensures fresh(piece)
    ensures piece.fed == Text(found, false)
    ensures piece.posts == if store then found else []
  {
    piece := new Piece();
    var i := 0;
    while i < |found|
      invariant 0 <= i <= |found| && fresh(piece)
      invariant piece.fed == Text(found[..i], false)
      invariant piece.posts == if store then found[..i] else []
    {
      TextStep(found, i, false);
      var _ := piece.Add(found[i], store);
      i := i + 1;
    }
    assert found[..i] == found;
  }

  class Database {
    var rows: Rows

    constructor ()
      ensures rows == []
    {
      rows := [];
    }

    /** The largest id; zero when there is none. */
    method PostCount() returns (n: nat)
      ensures n == MaxId(rows)
      ensures Numbered(rows) ==> n == |rows|
    {
      if Numbered(rows) {
        MaxIdNumbered(rows, 0);
      }
      n := MaxId(rows);
    }

    /** InsertPieces: pieces from a channel, in transactions that each end when a batch is full and another
        piece arrives, the last one at the nil. Without a nil the method keeps waiting, and what is in the
        table then is what was committed. */
    method InsertPieces(channel: seq<Option<seq<Post>>>) returns (ended: bool)
      modifies this
      ensures ended == (None in channel)
      ensures var sent := |Sent(channel)|;
              rows == Filled(old(rows), channel, if ended then sent else Committed(sent))
    {
      var tx := rows;
      var n, i := 0, 0;
      ghost var full := 0;
      while i < |channel|
        invariant Taken(channel, i)
        invariant 0 <= n <= BATCH && (n == 0 ==> i == 0) && i == BATCH * full + n && full >= 0
        invariant tx == Filled(old(rows), channel, i)
        invariant rows == Filled(old(rows), channel, BATCH * full)
      {
        if channel[i].None? {
          Receive(channel, i);
          rows := tx;
          return true;
        }
        if n == BATCH {
          rows, full := tx, full + 1;
          n := 0;
        }
        tx := InsertReceived(tx, channel, i, old(rows));
        n := n + 1;
        i := i + 1;
      }
      assert channel[i..] == [];
      CommittedBatches(i, n, full);
      ended := false;
    }

    /** QueryPiece: the piece with the given number, with or without its posts. */
    method QueryPiece(id: nat, store: bool) returns (piece: Piece)
      ensures fresh(piece)
      ensures piece.fed == Text(Select(rows, PIECE_SIZE * id, PIECE_SIZE), false)
      ensures piece.posts == if store then Select(rows, PIECE_SIZE * id, PIECE_SIZE) else []
    {
      piece := CollectRows(Select(rows, PIECE_SIZE * id, PIECE_SIZE), store);
    }

    /** QueryPiecePosts and HandlePiece: what is written in answer to a request. */
    method HandlePiece(start: int, length: int) returns (text: string)
      ensures text == Stream(Requested(rows, start, length))
    {
      var posts := Requested(rows, start, length);
      var w := new Writer();
      var i := 0;
      assert Lines(posts[..0], true) == [];
      while i < |posts|
        invariant 0 <= i <= |posts| && fresh(w)
        invariant w.out == Text(posts[..i], true)
      {
        WritePost(posts[i], [BAR], "", true, w);
        TextOfOne(posts[i], true);
        TextStep(posts, i, true);
        assert w.out == Text(posts[..i], true) + Text([posts[i]], true);
        i := i + 1;
      }
      assert posts[..i] == posts;
      WritePost(SENTINEL, [BAR], "", true, w);
      TextOfOne(SENTINEL, true);
      text := w.out;
    }
  }
}
