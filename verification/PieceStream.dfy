/** The stream of posts that answers a piece request, and how the requesting end cuts it back into
    pieces (data/errors.go, proto/client.go:482-563). */
module PieceStream {
  import opened Options
  import opened Decimal
  import opened Delimited
  import opened Chunks
  import opened Posts

  // ---------------------------------------------------------------- the parser as a function

  /** A number that does not parse counts as zero. */
  function Convert(s: string): (n: int) {
    match Atoi(s)
    case None => 0
    case Some(v) => v
  }

  function BuildPost(ts: seq<string>): (p: Post)
    requires |ts| >= 10
  {
    Post(Convert(ts[0]), ts[1], ts[2], Convert(ts[3]), Convert(ts[4]), Convert(ts[5]), Convert(ts[6]), Convert(ts[7]), ts[8], ts[9])
  }

  /** One post and the fields after it: none at the id -1, and none when the post is not there in full. */
  function ParsePost(ts: seq<string>): (r: One<string, Post>) {
    if ts != [] && Convert(ts[0]) == -1 then One(None, ts[1..])
    else if |ts| < 10 then One(None, [])
    else One(Some(BuildPost(ts)), ts[10..])
  }

  /** The posts of each of n pieces cut from a text. */
  function Pieces(text: string, n: nat): (r: seq<seq<Post>>)
    ensures |r| == n
  {
    ParsePieces(ParsePost, PIECE_SIZE, Tokens(BAR, text), n)
  }

  // ---------------------------------------------------------------- the parser as code

  function Tail(ts: seq<string>, n: nat): (r: seq<string>) {
    if n <= |ts| then ts[n..] else []
  }

  function At(ts: seq<string>, n: nat): (f: string) {
    if n < |ts| then ts[n] else ""
  }

  /** A buffered reader that turns errors into empty strings; failed tells about the last read. */
  class ErrorReader {
    var rest: string
    var failed: bool

    constructor (s: string)
      ensures rest == s && !failed
    {
      rest, failed := s, false;
    }

    /** The fields still to be read. */
    ghost function Left(): (ts: seq<string>)
      reads this
    {
      Tokens(BAR, rest)
    }

    method ReadString(delim: char) returns (s: string)
      modifies this
      ensures s == At(Tokens(delim, old(rest)), 0)
      ensures Tokens(delim, rest) == Tail(Tokens(delim, old(rest)), 1)
      ensures failed == (Tokens(delim, old(rest)) == []) && (failed ==> rest == "")
    {
      var k := FirstBar(delim, rest);
      if k < |rest| {
        s := rest[..k];
        rest, failed := rest[k + 1..], false;
      } else {
        s := "";
        rest, failed := "", true;
      }
    }

    /** Field number n of those that start at from. */
    method Next(ghost from: seq<string>, ghost n: nat) returns (s: string)
      requires Left() == Tail(from, n)
      modifies this
      ensures s == At(from, n) && Left() == Tail(from, n + 1) && failed == (|from| <= n)
    {
      s := ReadString(BAR);
    }
  }

  method Converted(s: string) returns (n: int)
    ensures n == Convert(s)
  {
    match Atoi(s) {
      case None => n := 0;
      case Some(v) => n := v;
    }
  }

  /** One round of the inner loop. */
  method ReadPost(er: ErrorReader) returns (p: Option<Post>)
    modifies er
    ensures ParsePost(old(er.Left())) == One(p, er.Left())
  {
    ghost var from := er.Left();
    var idText := er.Next(from, 0);
    var id := Converted(idText);
    if id == -1 {
      return None;
    }
    var infoHash := er.Next(from, 1);
    var title := er.Next(from, 2);
    var sizeText := er.Next(from, 3);
    var size := Converted(sizeText);
    var countText := er.Next(from, 4);
    var fileCount := Converted(countText);
    var seedText := er.Next(from, 5);
    var seeders := Converted(seedText);
    var leechText := er.Next(from, 6);
    var leechers := Converted(leechText);
    var dateText := er.Next(from, 7);
    var uploadDate := Converted(dateText);
    var tags := er.Next(from, 8);
    var meta := er.Next(from, 9);
    if er.failed {
      return None;
    }
    p := Some(Post(id, infoHash, title, size, fileCount, seeders, leechers, uploadDate, tags, meta));
  }

  /** The inner loop: one piece. */
  method ReadPiece(er: ErrorReader) returns (piece: Piece)
    modifies er
    ensures fresh(piece) && piece.Stored()
    ensures ParseUpTo(ParsePost, old(er.Left()), PIECE_SIZE) == Parsed(piece.posts, er.Left())
  {
    piece := new Piece();
    var count := 0;
    while count < PIECE_SIZE
      invariant 0 <= count == |piece.posts| <= PIECE_SIZE
      invariant piece.Stored() && fresh(piece)
      invariant Behind(ParsePost, old(er.Left()), PIECE_SIZE, piece.posts, er.Left())
    {
      ReadOne(ParsePost, old(er.Left()), PIECE_SIZE, piece.posts, er.Left());
      var post := ReadPost(er);
      if post.None? {
        return;
      }
      var _ := piece.Add(post.value, true);
      count := count + 1;
    }
  }

  /** Client.Pieces: the outer loop, one piece per round whatever the stream holds. */
  method ReadPieces(er: ErrorReader, length: int) returns (pieces: seq<Piece>)
    modifies er
    ensures |pieces| == if length < 0 then 0 else length
    ensures forall i :: 0 <= i < |pieces| ==> fresh(pieces[i]) && pieces[i].Stored()
    ensures forall i :: 0 <= i < |pieces| ==> pieces[i].posts == Pieces(old(er.rest), |pieces|)[i]
  {
    pieces := [];
    var i := 0;
    ghost var total := if length < 0 then 0 else length;
    ghost var goal := Pieces(er.rest, total);
    while i < length
      invariant 0 <= i <= total && |pieces| == i
      invariant forall j :: 0 <= j < i ==> fresh(pieces[j]) && pieces[j].Stored() && pieces[j].posts == goal[j]
      invariant goal[i..] == Pieces(er.rest, total - i)
    {
      ghost var left := Pieces(er.rest, total - i);
      var piece := ReadPiece(er);
      assert goal[i] == left[0] && goal[i + 1..] == left[1..];
      pieces := pieces + [piece];
      i := i + 1;
    }
  }

  // ---------------------------------------------------------------- what the parser makes of printed posts

  /** The post that ends a stream. */
  const SENTINEL := Post(-1, "", "", 0, 0, 0, 0, 0, "", "")

  /** Posts that print and parse: Go ints for numbers, and an id that is not the sentinel's. */
  predicate Good(p: Post) {
    Machine(p) && p.id != -1
  }

  ghost predicate AllGood(ps: seq<Post>) {
    forall i :: 0 <= i < |ps| ==> Good(ps[i])
  }

  lemma ConvertOfItoa(n: int)
    requires IsInt64(n)
    ensures Convert(Itoa(n)) == n
  {
    AtoiOfItoa(n);
  }

  lemma BuildOfFields(p: Post, rest: seq<string>)
    requires Machine(p)
    ensures BuildPost(Fields(p, true) + rest) == p
  {
    ConvertOfItoa(p.id);
    ConvertOfItoa(p.size);
    ConvertOfItoa(p.fileCount);
    ConvertOfItoa(p.seeders);
    ConvertOfItoa(p.leechers);
    ConvertOfItoa(p.uploadDate);
    var ts := Fields(p, true) + rest;
    assert ts[0] == Itoa(p.id) && ts[1] == p.infoHash && ts[2] == p.title && ts[3] == Itoa(p.size);
    assert ts[4] == Itoa(p.fileCount) && ts[5] == Itoa(p.seeders) && ts[6] == Itoa(p.leechers);
    assert ts[7] == Itoa(p.uploadDate) && ts[8] == p.tags && ts[9] == p.meta;
  }

  lemma ParsePostOf(p: Post, rest: seq<string>)
    requires Good(p)
    ensures ParsePost(Fields(p, true) + rest) == One(Some(p), rest)
  {
    BuildOfFields(p, rest);
    var ts := Fields(p, true) + rest;
    assert ts[10..] == rest;
    assert Convert(ts[0]) == BuildPost(ts).id;
  }

  lemma LinesRead(ps: seq<Post>)
    requires AllGood(ps)
    ensures Reads(ParsePost, Lines(ps, true), ps)
  {
    var ls := Lines(ps, true);
    forall i, rest | 0 <= i < |ps| ensures ParsePost(ls[i] + rest) == One(Some(ps[i]), rest) {
      ParsePostOf(ps[i], rest);
    }
  }

  /** After the sentinel's id nine fields remain, one short of a post. */
  lemma SentinelStops()
    ensures Stops(ParsePost, Fields(SENTINEL, true))
  {
    ConvertOfItoa(-1);
    var ts := Fields(SENTINEL, true);
    assert ParsePost(ts) == One(None, ts[1..]);
    assert ts[1..][0] == "" && Number("") == None;
  }

  /** Parsed posts never hold the delimiter. */
  lemma {:induction false} ParsedArePlain(ts: seq<string>, room: nat)
    requires AllPlain(BAR, ts)
    ensures AllPlainPosts(ParseUpTo(ParsePost, ts, room).records) && AllPlain(BAR, ParseUpTo(ParsePost, ts, room).rest)
    decreases room
  {
    if room > 0 && |ts| >= 10 {
      assert PlainPost(BuildPost(ts));
      ParsedArePlain(ts[10..], room - 1);
    }
  }

  lemma {:induction false} PiecesFieldsPlain(ts: seq<string>, size: nat, n: nat, i: nat)
    requires AllPlain(BAR, ts) && i < n
    ensures AllPlainPosts(ParsePieces(ParsePost, size, ts, n)[i])
    decreases n
  {
    ParsedArePlain(ts, size);
    if i > 0 {
      PiecesFieldsPlain(ParseUpTo(ParsePost, ts, size).rest, size, n - 1, i - 1);
    }
  }

  lemma PiecesArePlain(text: string, n: nat, i: nat)
    requires i < n
    ensures AllPlainPosts(Pieces(text, n)[i])
  {
    TokensPlain(BAR, text);
    PiecesFieldsPlain(Tokens(BAR, text), PIECE_SIZE, n, i);
  }

  /** A printed post reads back exactly when no text field holds the delimiter and the id is not the
      sentinel's. */
  lemma PostRoundTrip(p: Post)
    requires Machine(p)
    ensures ParsePost(Tokens(BAR, Text([p], true))).record == Some(p) <==> PlainPost(p) && p.id != -1
  {
    var text := Text([p], true);
    var ts := Tokens(BAR, text);
    if PlainPost(p) {
      TextTokens([p], true, "");
      assert text + "" == text;
      assert Lines([p], true) == [Fields(p, true)];
      assert ts == Fields(p, true) + [];
      BuildOfFields(p, []);
      assert Convert(ts[0]) == BuildPost(ts).id;
    }
    TokensPlain(BAR, text);
    ParsedArePlain(ts, 1);
    assert ParseUpTo(ParsePost, ts, 1).records == if ParsePost(ts).record.Some? then [ParsePost(ts).record.value] else [];
  }

  /** The text that answers a request: the posts, then the sentinel. */
  function Stream(ps: seq<Post>): string {
    Text(ps, true) + Text([SENTINEL], true)
  }

  /** Cutting n pieces from a stream yields its first n runs of 1000 posts. */
  lemma PiecesOfPosts(ps: seq<Post>, n: nat, i: nat)
    requires AllGood(ps) && AllPlainPosts(ps) && i < n
    ensures Pieces(Stream(ps), n)[i] == Chunk(PIECE_SIZE, ps, i)
  {
    TextTokens(ps, true, Text([SENTINEL], true));
    TextTokens([SENTINEL], true, "");
    assert Text([SENTINEL], true) + "" == Text([SENTINEL], true);
    assert Lines([SENTINEL], true) == [Fields(SENTINEL, true)];
    var stop := Fields(SENTINEL, true);
    assert Flat([stop]) + [] == stop;
    LinesRead(ps);
    SentinelStops();
    PiecesOfStream(ParsePost, PIECE_SIZE, Lines(ps, true), ps, stop, n, i);
  }

  /** The same when n full pieces are followed by anything at all. */
  lemma PiecesOfFullPosts(ps: seq<Post>, rest: string, n: nat, i: nat)
    requires AllGood(ps) && AllPlainPosts(ps) && |ps| == PIECE_SIZE * n && i < n
    ensures Pieces(Text(ps, true) + rest, n)[i] == Chunk(PIECE_SIZE, ps, i)
  {
    TextTokens(ps, true, rest);
    LinesRead(ps);
    PiecesOfStream(ParsePost, PIECE_SIZE, Lines(ps, true), ps, Tokens(BAR, rest), n, i);
  }

  // ---------------------------------------------------------------- a stream that breaks off

  /** Nothing is read from a post that is not there in full, nor from the start of a sentinel. */
  lemma CutPostStops(q: Post, cut: nat)
    requires (Good(q) && PlainPost(q)) || q == SENTINEL
    requires cut < |Text([q], true)|
    ensures Stops(ParsePost, Tokens(BAR, Text([q], true)[..cut]))
  {
    TextOfOne(q, true);
    FieldsPlain(q, true);
    var m := TokensOfCut(BAR, Fields(q, true), cut);
    var ts := Fields(q, true)[..m];
    ConvertOfItoa(q.id);
    assert m > 0 ==> ts[0] == Itoa(q.id);
    assert q == SENTINEL && m > 1 ==> ts[1..][0] == "";
    assert Atoi("") == None;
  }

  lemma CutPosts(ps: seq<Post>, q: Post, cut: nat, text: string, n: nat, i: nat)
    requires AllGood(ps) && AllPlainPosts(ps) && i < n
    requires (Good(q) && PlainPost(q)) || q == SENTINEL
    requires cut < |Text([q], true)| && text == Text(ps, true) + Text([q], true)[..cut]
    ensures Pieces(text, n)[i] == Chunk(PIECE_SIZE, ps, i)
  {
    var rest := Text([q], true)[..cut];
    CutPostStops(q, cut);
    TextTokens(ps, true, rest);
    LinesRead(ps);
    PiecesOfStream(ParsePost, PIECE_SIZE, Lines(ps, true), ps, Tokens(BAR, rest), n, i);
  }

  /** The first cut characters of a stream hold k posts in full and no more. */
  ghost predicate HoldsWhole(ps: seq<Post>, cut: nat, k: nat) {
    && k <= |ps| && |Text(ps[..k], true)| <= cut <= |Stream(ps)|
    && (k < |ps| ==> cut < |Text(ps[..k + 1], true)|)
  }

  /** There always is such a number. */
  lemma {:induction false} SomeAreWhole(ps: seq<Post>, cut: nat, n: nat) returns (k: nat)
    requires cut <= |Stream(ps)| && n <= |ps| && |Text(ps[..n], true)| <= cut
    ensures HoldsWhole(ps, cut, k)
    decreases |ps| - n
  {
    if n < |ps| && |Text(ps[..n + 1], true)| <= cut {
      k := SomeAreWhole(ps, cut, n + 1);
    } else {
      k := n;
    }
  }

  lemma CutText(ps: seq<Post>, cut: nat, k: nat)
    requires HoldsWhole(ps, cut, k) && cut < |Stream(ps)|
    ensures var next := if k < |ps| then ps[k] else SENTINEL;
            var left := cut - |Text(ps[..k], true)|;
            left < |Text([next], true)| && Stream(ps)[..cut] == Text(ps[..k], true) + Text([next], true)[..left]
  {
    if k < |ps| {
      var head, left := ps[..k + 1], cut - |Text(ps[..k], true)|;
      TextStep(ps, k, true);
      assert ps == head + ps[k + 1..];
      TextConcat(head, ps[k + 1..], true);
      assert Stream(ps)[..cut] == Text(head, true)[..cut];
    } else {
      assert ps[..k] == ps;
    }
  }

  lemma CutInside(ps: seq<Post>, cut: nat, k: nat, n: nat, i: nat)
    requires AllGood(ps) && AllPlainPosts(ps) && HoldsWhole(ps, cut, k) && cut < |Stream(ps)| && i < n
    ensures Pieces(Stream(ps)[..cut], n)[i] == Chunk(PIECE_SIZE, ps[..k], i)
  {
    var head, next := ps[..k], if k < |ps| then ps[k] else SENTINEL;
    assert AllGood(head) && AllPlainPosts(head);
    CutText(ps, cut, k);
    CutPosts(head, next, cut - |Text(head, true)|, Stream(ps)[..cut], n, i);
  }

  /** A stream that breaks off anywhere gives the posts that arrived in full, cut into pieces as if there had been
      no others. */
  lemma CutStream(ps: seq<Post>, cut: nat, k: nat, n: nat, i: nat)
    requires AllGood(ps) && AllPlainPosts(ps) && HoldsWhole(ps, cut, k) && i < n
    ensures Pieces(Stream(ps)[..cut], n)[i] == Chunk(PIECE_SIZE, ps[..k], i)
  {
    if cut < |Stream(ps)| {
      CutInside(ps, cut, k, n, i);
    } else {
      CutOfWhole(ps, cut, k);
      assert Stream(ps)[..cut] == Stream(ps) && ps[..k] == ps;
      PiecesOfPosts(ps, n, i);
    }
  }

  lemma CutOfWhole(ps: seq<Post>, cut: nat, k: nat)
    requires HoldsWhole(ps, cut, k) && cut == |Stream(ps)|
    ensures k == |ps|
  {
    if k < |ps| {
      assert ps == ps[..k + 1] + ps[k + 1..];
      TextConcat(ps[..k + 1], ps[k + 1..], true);
    }
  }

  // ---------------------------------------------------------------- what can come of a stream at all

  /** Posts as they come out of a stream: at most a piece of them, without the delimiter, of Go ints, and
      none with the id that ends a piece. */
  ghost predicate Received(size: nat, ps: seq<Post>) {
    |ps| <= size && AllPlainPosts(ps) && AllGood(ps)
  }

  lemma ConvertFits(s: string)
    ensures IsInt64(Convert(s))
  {
  }

  lemma BuiltIsMachine(ts: seq<string>)
    requires |ts| >= 10
    ensures Machine(BuildPost(ts))
  {
    ConvertFits(ts[0]);
    ConvertFits(ts[3]);
    ConvertFits(ts[4]);
    ConvertFits(ts[5]);
    ConvertFits(ts[6]);
    ConvertFits(ts[7]);
  }

  lemma {:induction false} ParsedAreGood(ts: seq<string>, room: nat)
    ensures AllGood(ParseUpTo(ParsePost, ts, room).records)
    decreases room
  {
    if room > 0 && |ts| >= 10 {
      BuiltIsMachine(ts);
      ParsedAreGood(ts[10..], room - 1);
    }
  }

  lemma {:induction false} PiecesReceivedFrom(ts: seq<string>, size: nat, n: nat, i: nat)
    requires AllPlain(BAR, ts) && i < n
    ensures Received(size, ParsePieces(ParsePost, size, ts, n)[i])
    decreases n
  {
    ParsedArePlain(ts, size);
    ParsedAreGood(ts, size);
    if i > 0 {
      PiecesReceivedFrom(ParseUpTo(ParsePost, ts, size).rest, size, n - 1, i - 1);
    }
  }

  /** Whatever the stream, its pieces are such posts. */
  lemma PiecesAreReceived(text: string, n: nat, i: nat)
    requires i < n
    ensures Received(PIECE_SIZE, Pieces(text, n)[i])
  {
    TokensPlain(BAR, text);
    PiecesReceivedFrom(Tokens(BAR, text), PIECE_SIZE, n, i);
  }

  /** A stream for given pieces: each that is not full is ended by the id that does so. */
  function StreamOf(size: nat, pieces: seq<seq<Post>>): string {
    if pieces == [] then "" else
      Text(pieces[0], true) + ((if |pieces[0]| < size then "-1|" else "") + StreamOf(size, pieces[1..]))
  }

  lemma EndOfPiece(rest: string)
    ensures Tokens(BAR, "-1|" + rest) == [Itoa(-1)] + Tokens(BAR, rest)
    ensures ParsePost([Itoa(-1)] + Tokens(BAR, rest)) == One(None, Tokens(BAR, rest))
  {
    assert Digits(1) == ['1'] && Itoa(-1) == "-1";
    assert "-1|" + rest == "-1" + [BAR] + rest;
    TokensCons(BAR, "-1", rest);
    ConvertOfItoa(-1);
    var ts := [Itoa(-1)] + Tokens(BAR, rest);
    assert ts[1..] == Tokens(BAR, rest);
  }

  /** One piece is read back, and what follows it is left. */
  lemma OnePieceRead(size: nat, ps: seq<Post>, rest: string)
    requires Received(size, ps)
    ensures var text := Text(ps, true) + ((if |ps| < size then "-1|" else "") + rest);
            ParseUpTo(ParsePost, Tokens(BAR, text), size) == Parsed(ps, Tokens(BAR, rest))
  {
    var ends := if |ps| < size then "-1|" else "";
    LinesRead(ps);
    TextTokens(ps, true, ends + rest);
    ParseLines(ParsePost, Lines(ps, true), ps, Tokens(BAR, ends + rest), size);
    EndOfPiece(rest);
    assert "" + rest == rest;
    assert ps + [] == ps;
  }

  lemma AnyPiecesStep(size: nat, ps: seq<Post>, pieces: seq<seq<Post>>)
    requires Received(size, ps) && ParsePieces(ParsePost, size, Tokens(BAR, StreamOf(size, pieces)), |pieces|) == pieces
    ensures ParsePieces(ParsePost, size, Tokens(BAR, StreamOf(size, [ps] + pieces)), |pieces| + 1) == [ps] + pieces
  {
    OnePieceRead(size, ps, StreamOf(size, pieces));
    assert ([ps] + pieces)[1..] == pieces;
  }

  /** All lists of such posts can come out of a stream as its pieces. */
  lemma {:induction false} AnyPieces(size: nat, pieces: seq<seq<Post>>)
    requires forall i :: 0 <= i < |pieces| ==> Received(size, pieces[i])
    ensures ParsePieces(ParsePost, size, Tokens(BAR, StreamOf(size, pieces)), |pieces|) == pieces
    decreases |pieces|
  {
    if pieces != [] {
      AnyPieces(size, pieces[1..]);
      AnyPiecesStep(size, pieces[0], pieces[1..]);
      assert pieces == [pieces[0]] + pieces[1..];
    }
  }

  /** The first post of a stream keeps its id, whatever its texts hold. */
  lemma FirstKeepsId(ps: seq<Post>, rest: string, room: nat)
    requires ps != [] && AllGood(ps) && room > 0
    ensures var got := ParseUpTo(ParsePost, Tokens(BAR, Text(ps, true) + rest), room).records;
            got != [] && got[0].id == ps[0].id
  {
    var ts := Tokens(BAR, Text(ps, true) + rest);
    FirstFieldIsId(ps, true);
    ItoaPlain(ps[0].id);
    FirstToken(BAR, Flat(Lines(ps, true)), rest);
    ConvertOfItoa(ps[0].id);
    assert ParsePost(ts).record == Some(BuildPost(ts));
  }

  lemma FirstFieldIsId(ps: seq<Post>, counts: bool)
    requires ps != []
    ensures var fs := Flat(Lines(ps, counts)); |fs| >= Width(counts) && fs[0] == Itoa(ps[0].id)
  {
    assert Lines(ps, counts)[0] == Fields(ps[0], counts);
  }

  /** Lists that start with different ids have different texts. */
  lemma FirstIdShows(ps: seq<Post>, qs: seq<Post>)
    requires ps != [] && qs != [] && Text(ps, false) == Text(qs, false)
    ensures ps[0].id == qs[0].id
  {
    FirstFieldIsId(ps, false);
    FirstFieldIsId(qs, false);
    ItoaPlain(ps[0].id);
    ItoaPlain(qs[0].id);
    FirstToken(BAR, Flat(Lines(ps, false)), "");
    FirstToken(BAR, Flat(Lines(qs, false)), "");
    ItoaInjective(ps[0].id, qs[0].id);
  }

  /** The text of the post that ends a stream. */
  lemma SentinelText()
    ensures Text([SENTINEL], true) == "-1|||0|0|0|0|0|||"
  {
    TextOfPost(SENTINEL);
    assert Digits(1) == "1" && Digits(0) == "0";
    assert Itoa(-1) == "-1" && Itoa(0) == "0";
  }

  // ---------------------------------------------------------------- a title with the delimiter

  /** What a post reads as whose title is cut in two: everything after the cut moves up by one field, and what is
      read as a number without being one is zero. */
  function Slipped(p: Post, x: string): Post {
    Post(p.id, p.infoHash, x, 0, p.size, p.fileCount, p.seeders, p.leechers, Itoa(p.uploadDate), p.tags)
  }

  function SlippedFields(p: Post, x: string, y: string): (fs: seq<string>)
    ensures |fs| == 11
  {
    [Itoa(p.id), p.infoHash] + [x, y]
    + [Itoa(p.size), Itoa(p.fileCount), Itoa(p.seeders), Itoa(p.leechers), Itoa(p.uploadDate), p.tags, p.meta]
  }

  lemma SlippedParse(p: Post, x: string, y: string, rest: seq<string>)
    requires Good(p) && Atoi(y).None?
    ensures ParsePost(SlippedFields(p, x, y) + rest) == One(Some(Slipped(p, x)), [p.meta] + rest)
  {
    ConvertOfItoa(p.id);
    ConvertOfItoa(p.size);
    ConvertOfItoa(p.fileCount);
    ConvertOfItoa(p.seeders);
    ConvertOfItoa(p.leechers);
    var ts := SlippedFields(p, x, y) + rest;
    assert ts[0] == Itoa(p.id) && ts[1] == p.infoHash && ts[2] == x && ts[3] == y && ts[4] == Itoa(p.size);
    assert ts[5] == Itoa(p.fileCount) && ts[6] == Itoa(p.seeders) && ts[7] == Itoa(p.leechers);
    assert ts[8] == Itoa(p.uploadDate) && ts[9] == p.tags && ts[10..] == [p.meta] + rest;
  }

  lemma SlippedText(p: Post, x: string, y: string)
    requires p.title == x + [BAR] + y
    ensures Text([p], true) == Terminated(SlippedFields(p, x, y), [BAR])
  {
    var head := [Itoa(p.id), p.infoHash];
    var tail := [Itoa(p.size), Itoa(p.fileCount), Itoa(p.seeders), Itoa(p.leechers), Itoa(p.uploadDate), p.tags, p.meta];
    TextOfOne(p, true);
    assert Join([x, y], [BAR]) == p.title;
    assert Fields(p, true) == head + [Join([x, y], [BAR])] + tail;
    JoinedInside(head, [x, y], tail, [BAR]);
  }

  lemma SlippedTokens(p: Post, x: string, y: string, rest: string)
    requires p.title == x + [BAR] + y && BAR !in x && BAR !in y && BAR !in p.infoHash && BAR !in p.tags && BAR !in p.meta
    ensures Tokens(BAR, Text([p], true) + rest) == SlippedFields(p, x, y) + Tokens(BAR, rest)
  {
    SlippedText(p, x, y);
    ItoaPlain(p.id);
    ItoaPlain(p.size);
    ItoaPlain(p.fileCount);
    ItoaPlain(p.seeders);
    ItoaPlain(p.leechers);
    ItoaPlain(p.uploadDate);
    TokensOfTerminated(BAR, SlippedFields(p, x, y), rest);
  }

  lemma StreamStarts(p: Post, ps: seq<Post>) returns (rest: string)
    ensures Stream([p] + ps) == Text([p], true) + rest
  {
    TextConcat([p], ps, true);
    rest := Text(ps, true) + Text([SENTINEL], true);
  }

  /** A post with the delimiter in its title, and no number after it, is received first in every stream that starts
      with it, with its fields moved up. */
  lemma SlippedIsReceived(p: Post, x: string, y: string, ps: seq<Post>, n: nat)
    requires Good(p) && n > 0 && Atoi(y).None?
    requires p.title == x + [BAR] + y && BAR !in x && BAR !in y && BAR !in p.infoHash && BAR !in p.tags && BAR !in p.meta
    ensures Pieces(Stream([p] + ps), n)[0] != [] && Pieces(Stream([p] + ps), n)[0][0] == Slipped(p, x)
  {
    var rest := StreamStarts(p, ps);
    SlippedTokens(p, x, y, rest);
    SlippedParse(p, x, y, Tokens(BAR, rest));
    FirstOfPieces(Tokens(BAR, Stream([p] + ps)), PIECE_SIZE, n);
  }

  lemma FirstOfPieces(ts: seq<string>, size: nat, n: nat)
    requires n > 0 && size > 0 && ParsePost(ts).record.Some?
    ensures var got := ParsePieces(ParsePost, size, ts, n)[0]; got != [] && got[0] == ParsePost(ts).record.value
  {
  }
}
