/** Posts and how they are printed, and the pieces that collect and hash them
    (data/post.go, data/piece.go). */
module Posts {
  import opened Decimal
  import opened Delimited

  const PIECE_SIZE := 1000

  datatype Post = Post(id: int, infoHash: string, title: string, size: int, fileCount: int,
                       seeders: int, leechers: int, uploadDate: int, tags: string, meta: string)

  /** Every number is a Go int. */
  predicate Machine(p: Post) {
    && IsInt64(p.id) && IsInt64(p.size) && IsInt64(p.fileCount)
    && IsInt64(p.seeders) && IsInt64(p.leechers) && IsInt64(p.uploadDate)
  }

  /** No text field holds the delimiter. */
  predicate PlainPost(p: Post) {
    BAR !in p.infoHash && BAR !in p.title && BAR !in p.tags && BAR !in p.meta
  }

  ghost predicate AllPlainPosts(ps: seq<Post>) {
    forall i :: 0 <= i < |ps| ==> PlainPost(ps[i])
  }

  /** Everything about a post but the two counts that are allowed to change. */
  function Fixed(p: Post): Post {
    p.(seeders := 0, leechers := 0)
  }

  ghost predicate SameButCounts(ps: seq<Post>, qs: seq<Post>) {
    |ps| == |qs| && forall i :: 0 <= i < |ps| ==> Fixed(ps[i]) == Fixed(qs[i])
  }

  // ---------------------------------------------------------------- printing

  function Width(counts: bool): nat {
    if counts then 10 else 8
  }

  /** The fields of a post as it travels (with counts) or as it is hashed (without). */
  function Fields(p: Post, counts: bool): (fs: seq<string>)
    ensures |fs| == Width(counts)
  {
    [Itoa(p.id), p.infoHash, p.title, Itoa(p.size), Itoa(p.fileCount)]
    + (if counts then [Itoa(p.seeders), Itoa(p.leechers)] else [])
    + [Itoa(p.uploadDate), p.tags, p.meta]
  }

  lemma FieldsPlain(p: Post, counts: bool)
    requires PlainPost(p)
    ensures AllPlain(BAR, Fields(p, counts))
  {
    ItoaPlain(p.id);
    ItoaPlain(p.size);
    ItoaPlain(p.fileCount);
    ItoaPlain(p.seeders);
    ItoaPlain(p.leechers);
    ItoaPlain(p.uploadDate);
  }

  /** An io.Writer, by what has been written to it. */
  class Writer {
    var out: string

    constructor ()
      ensures out == ""
    {
      out := "";
    }

    method Write(s: string)
      modifies this
      ensures out == old(out) + s
    {
      out := out + s;
    }

    /** Field number n of a line, and the separator after it. */
    method Field(f: string, sep: string, ghost base: string, ghost fs: seq<string>, ghost n: nat)
      requires n < |fs| && f == fs[n] && out == base + Terminated(fs[..n], sep)
      modifies this
      ensures out == base + Terminated(fs[..n + 1], sep)
    {
      Write(f);
      Write(sep);
      TerminatedSnoc(fs[..n], f, sep);
      assert fs[..n + 1] == fs[..n] + [f];
      assert out == base + (Terminated(fs[..n], sep) + f + sep);
    }
  }

  /** Post.Write */
  method WritePost(p: Post, sep: string, term: string, counts: bool, w: Writer)
    modifies w
    ensures w.out == old(w.out) + Terminated(Fields(p, counts), sep) + term
  {
    ghost var base, fs := w.out, Fields(p, counts);
    w.Field(Itoa(p.id), sep, base, fs, 0);
    w.Field(p.infoHash, sep, base, fs, 1);
    w.Field(p.title, sep, base, fs, 2);
    w.Field(Itoa(p.size), sep, base, fs, 3);
    w.Field(Itoa(p.fileCount), sep, base, fs, 4);
    if counts {
      w.Field(Itoa(p.seeders), sep, base, fs, 5);
      w.Field(Itoa(p.leechers), sep, base, fs, 6);
    }
    w.Field(Itoa(p.uploadDate), sep, base, fs, |fs| - 3);
    w.Field(p.tags, sep, base, fs, |fs| - 2);
    w.Field(p.meta, sep, base, fs, |fs| - 1);
    assert fs[..|fs|] == fs;
    w.Write(term);
  }

  function Lines(ps: seq<Post>, counts: bool): (ls: seq<seq<string>>)
    ensures AllWide(ls, Width(counts))
  {
    seq(|ps|, i requires 0 <= i < |ps| => Fields(ps[i], counts))
  }

  /** The posts one after the other. */
  function Text(ps: seq<Post>, counts: bool): string {
    Terminated(Flat(Lines(ps, counts)), [BAR])
  }

  lemma TextConcat(ps: seq<Post>, qs: seq<Post>, counts: bool)
    ensures Text(ps + qs, counts) == Text(ps, counts) + Text(qs, counts)
  {
    assert Lines(ps + qs, counts) == Lines(ps, counts) + Lines(qs, counts);
    FlatConcat(Lines(ps, counts), Lines(qs, counts));
    TerminatedConcat(Flat(Lines(ps, counts)), Flat(Lines(qs, counts)), [BAR]);
  }

  lemma TextOfNone(counts: bool)
    ensures Text([], counts) == ""
  {
    assert Lines([], counts) == [];
  }

  lemma TextOfOne(p: Post, counts: bool)
    ensures Text([p], counts) == Terminated(Fields(p, counts), [BAR])
  {
    assert Lines([p], counts) == [Fields(p, counts)];
    assert Flat([Fields(p, counts)]) == Fields(p, counts);
  }

  lemma TerminatedOf(fs: seq<string>, i: nat)
    requires i < |fs|
    ensures Terminated(fs[i..], [BAR]) == fs[i] + "|" + Terminated(fs[i + 1..], [BAR])
  {
    assert fs[i..][0] == fs[i] && fs[i..][1..] == fs[i + 1..];
  }

  /** The text of a post, written out: how it travels and how it is hashed. */
  lemma TextOfPost(p: Post)
    ensures Text([p], true) ==
            Itoa(p.id) + "|" + (p.infoHash + "|" + (p.title + "|" + (Itoa(p.size) + "|" + (Itoa(p.fileCount) + "|"
            + (Itoa(p.seeders) + "|" + (Itoa(p.leechers) + "|" + (Itoa(p.uploadDate) + "|" + (p.tags + "|" + (p.meta + "|")))))))))
    ensures Text([p], false) ==
            Itoa(p.id) + "|" + (p.infoHash + "|" + (p.title + "|" + (Itoa(p.size) + "|" + (Itoa(p.fileCount) + "|"
            + (Itoa(p.uploadDate) + "|" + (p.tags + "|" + (p.meta + "|")))))))
  {
    TextOfOne(p, true);
    TextOfOne(p, false);
    WideText(Fields(p, true));
    NarrowText(Fields(p, false));
  }

  lemma NarrowText(fs: seq<string>)
    requires |fs| == 8
    ensures Terminated(fs, [BAR]) ==
            fs[0] + "|" + (fs[1] + "|" + (fs[2] + "|" + (fs[3] + "|" + (fs[4] + "|" + (fs[5] + "|" + (fs[6] + "|" + (fs[7] + "|")))))))
  {
    assert fs[0..] == fs && fs[8..] == [] && fs[7] + "|" + "" == fs[7] + "|";
    TerminatedOf(fs, 0);
    TerminatedOf(fs, 1);
    TerminatedOf(fs, 2);
    TerminatedOf(fs, 3);
    TerminatedOf(fs, 4);
    TerminatedOf(fs, 5);
    TerminatedOf(fs, 6);
    TerminatedOf(fs, 7);
  }

  lemma WideText(fs: seq<string>)
    requires |fs| == 10
    ensures Terminated(fs, [BAR]) ==
            fs[0] + "|" + (fs[1] + "|" + (fs[2] + "|" + (fs[3] + "|" + (fs[4] + "|"
            + (fs[5] + "|" + (fs[6] + "|" + (fs[7] + "|" + (fs[8] + "|" + (fs[9] + "|")))))))))
  {
    assert fs[0..] == fs && fs[2..][..8] == fs[2..];
    TerminatedOf(fs, 0);
    TerminatedOf(fs, 1);
    NarrowText(fs[2..]);
  }

  lemma TextStep(ps: seq<Post>, i: nat, counts: bool)
    requires i < |ps|
    ensures Text(ps[..i + 1], counts) == Text(ps[..i], counts) + Text([ps[i]], counts)
  {
    TextConcat(ps[..i], [ps[i]], counts);
    assert ps[..i + 1] == ps[..i] + [ps[i]];
  }

  lemma TextTokens(ps: seq<Post>, counts: bool, rest: string)
    requires AllPlainPosts(ps)
    ensures AllPlain(BAR, Flat(Lines(ps, counts)))
    ensures Tokens(BAR, Text(ps, counts) + rest) == Flat(Lines(ps, counts)) + Tokens(BAR, rest)
  {
    var ls := Lines(ps, counts);
    forall i | 0 <= i < |ls| ensures AllPlain(BAR, ls[i]) {
      FieldsPlain(ps[i], counts);
    }
    FlatPlain(BAR, ls);
    TokensOfTerminated(BAR, Flat(ls), rest);
  }

  /** Post.String with the arguments every caller uses. */
  method PrintPost(p: Post, counts: bool) returns (s: string)
    ensures s == Text([p], counts)
  {
    var w := new Writer();
    WritePost(p, [BAR], "", counts, w);
    s := w.out;
    TextOfOne(p, counts);
  }

  // ---------------------------------------------------------------- the hashed form determines the posts

  lemma FieldsInjective(p: Post, q: Post)
    requires Fields(p, false) == Fields(q, false)
    ensures Fixed(p) == Fixed(q)
  {
    var fs, gs := Fields(p, false), Fields(q, false);
    assert fs[0] == Itoa(p.id) && fs[3] == Itoa(p.size) && fs[4] == Itoa(p.fileCount) && fs[5] == Itoa(p.uploadDate);
    assert gs[0] == Itoa(q.id) && gs[3] == Itoa(q.size) && gs[4] == Itoa(q.fileCount) && gs[5] == Itoa(q.uploadDate);
    assert fs[1] == p.infoHash && fs[2] == p.title && fs[6] == p.tags && fs[7] == p.meta;
    assert gs[1] == q.infoHash && gs[2] == q.title && gs[6] == q.tags && gs[7] == q.meta;
    ItoaInjective(p.id, q.id);
    ItoaInjective(p.size, q.size);
    ItoaInjective(p.fileCount, q.fileCount);
    ItoaInjective(p.uploadDate, q.uploadDate);
  }

  lemma CountsAreNotHashed(ps: seq<Post>, qs: seq<Post>)
    requires SameButCounts(ps, qs)
    ensures Text(ps, false) == Text(qs, false)
  {
    forall i | 0 <= i < |ps| ensures Fields(ps[i], false) == Fields(qs[i], false) {
      assert Fields(ps[i], false) == Fields(Fixed(ps[i]), false);
      assert Fields(qs[i], false) == Fields(Fixed(qs[i]), false);
    }
    assert Lines(ps, false) == Lines(qs, false);
  }

  /** The hashed texts of plain posts are equal exactly when the posts are, counts aside, however many
      posts there are. */
  lemma HashedTextDecides(ps: seq<Post>, qs: seq<Post>)
    requires AllPlainPosts(ps) && AllPlainPosts(qs)
    ensures Text(ps, false) == Text(qs, false) <==> SameButCounts(ps, qs)
  {
    var ls, ms := Lines(ps, false), Lines(qs, false);
    if Text(ps, false) == Text(qs, false) {
      TextTokens(ps, false, "");
      TextTokens(qs, false, "");
      TerminatedInjective(BAR, Flat(ls), Flat(ms));
      FlatInjective(ls, ms, 8);
      forall i | 0 <= i < |ps| ensures Fixed(ps[i]) == Fixed(qs[i]) {
        assert ls[i] == ms[i];
        FieldsInjective(ps[i], qs[i]);
      }
    }
    if SameButCounts(ps, qs) {
      CountsAreNotHashed(ps, qs);
    }
  }

  /** A text with a delimiter, cut at one. */
  lemma CutAtBar(s: string) returns (x: string, y: string)
    requires BAR in s
    ensures s == x + [BAR] + y
  {
    var k :| 0 <= k < |s| && s[k] == BAR;
    x, y := s[..k], s[k + 1..];
  }

  function Numbers(p: Post): seq<string> {
    [Itoa(p.size), Itoa(p.fileCount), Itoa(p.uploadDate)]
  }

  lemma MovedInNames(p: Post, q: Post, x: string, y: string, z: string)
    requires p.infoHash == x + [BAR] + y && p.title == z
    requires q == p.(infoHash := x, title := y + [BAR] + z)
    ensures Text([p], false) == Text([q], false) && Fixed(p) != Fixed(q)
  {
    var head, tail := [Itoa(p.id)], Numbers(p) + [p.tags, p.meta];
    assert Fields(p, false) == head + [x + [BAR] + y, z] + tail;
    assert Fields(q, false) == head + [x, y + [BAR] + z] + tail;
    DelimiterMoves(BAR, head, x, y, z, tail);
    TextOfOne(p, false);
    TextOfOne(q, false);
    assert |p.infoHash| > |q.infoHash|;
  }

  lemma MovedInTags(p: Post, q: Post, x: string, y: string, z: string)
    requires p.tags == x + [BAR] + y && p.meta == z
    requires q == p.(tags := x, meta := y + [BAR] + z)
    ensures Text([p], false) == Text([q], false) && Fixed(p) != Fixed(q)
  {
    var head := [Itoa(p.id), p.infoHash, p.title] + Numbers(p);
    assert Fields(p, false) == head + [x + [BAR] + y, z] + [];
    assert Fields(q, false) == head + [x, y + [BAR] + z] + [];
    DelimiterMoves(BAR, head, x, y, z, []);
    TextOfOne(p, false);
    TextOfOne(q, false);
    assert |p.tags| > |q.tags|;
  }

  /** Another post that hashes like one with a delimiter in a text. */
  lemma Lookalike(p: Post) returns (q: Post)
    requires !PlainPost(p)
    ensures Text([p], false) == Text([q], false) && Fixed(p) != Fixed(q)
  {
    if BAR in p.infoHash {
      var x, y := CutAtBar(p.infoHash);
      q := p.(infoHash := x, title := y + [BAR] + p.title);
      MovedInNames(p, q, x, y, p.title);
    } else if BAR in p.title {
      var y, z := CutAtBar(p.title);
      q := p.(infoHash := p.infoHash + [BAR] + y, title := z);
      MovedInNames(q, p, p.infoHash, y, z);
    } else if BAR in p.tags {
      var x, y := CutAtBar(p.tags);
      q := p.(tags := x, meta := y + [BAR] + p.meta);
      MovedInTags(p, q, x, y, p.meta);
    } else {
      var y, z := CutAtBar(p.meta);
      q := p.(tags := p.tags + [BAR] + y, meta := z);
      MovedInTags(q, p, p.tags, y, z);
    }
  }

  lemma PlainPostIsUnmistakable(p: Post, q: Post)
    requires PlainPost(p) && Text([p], false) == Text([q], false)
    ensures Fixed(p) == Fixed(q)
  {
    TextOfOne(p, false);
    TextOfOne(q, false);
    FieldsPlain(p, false);
    PlainIsUnmistakable(BAR, Fields(p, false), Fields(q, false));
    FieldsInjective(p, q);
  }

  /** The hash text of a post determines it among all posts, counts aside, exactly when none of its texts holds
      the delimiter. */
  lemma HashTextIdentifies(p: Post)
    ensures PlainPost(p) <==> forall q :: Text([p], false) == Text([q], false) ==> Fixed(p) == Fixed(q)
  {
    if PlainPost(p) {
      forall q | Text([p], false) == Text([q], false) ensures Fixed(p) == Fixed(q) {
        PlainPostIsUnmistakable(p, q);
      }
    } else {
      var q := Lookalike(p);
    }
  }

  /** One post whose text is that of two: the middle fields of the two become its info hash. */
  function Merged(p: Post, q: Post): Post {
    q.(id := p.id, infoHash := Join(Middle(p, q), [BAR]))
  }

  function Middle(p: Post, q: Post): (fs: seq<string>)
    ensures fs != []
  {
    [p.infoHash, p.title] + Numbers(p) + [p.tags, p.meta, Itoa(q.id), q.infoHash]
  }

  lemma MergedText(p: Post, q: Post)
    ensures Text([Merged(p, q)], false) == Text([p, q], false)
  {
    var head, tail := [Itoa(p.id)], [q.title] + Numbers(q) + [q.tags, q.meta];
    assert Fields(Merged(p, q), false) == head + [Join(Middle(p, q), [BAR])] + tail;
    assert Fields(p, false) + Fields(q, false) == head + Middle(p, q) + tail;
    JoinedInside(head, Middle(p, q), tail, [BAR]);
    TextOfOne(Merged(p, q), false);
    assert [p, q] == [p] + [q];
    TextConcat([p], [q], false);
    TextOfOne(p, false);
    TextOfOne(q, false);
    TerminatedConcat(Fields(p, false), Fields(q, false), [BAR]);
  }

  lemma TextBars(ps: seq<Post>)
    ensures Bars(BAR, Text(ps, false)) >= 8 * |ps|
  {
    BarsCountFields(BAR, Flat(Lines(ps, false)));
    FlatLength(Lines(ps, false), 8);
  }

  /** Another list of posts with the text of two or more, or of one that holds the delimiter. */
  lemma LookalikeList(ps: seq<Post>) returns (qs: seq<Post>)
    requires |ps| >= 2 || (|ps| == 1 && !PlainPost(ps[0]))
    ensures Text(ps, false) == Text(qs, false) && !SameButCounts(ps, qs)
  {
    if |ps| == 1 {
      var q := Lookalike(ps[0]);
      qs := [q];
      assert ps == [ps[0]];
    } else {
      qs := [Merged(ps[0], ps[1])] + ps[2..];
      MergedText(ps[0], ps[1]);
      assert ps == [ps[0], ps[1]] + ps[2..];
      TextConcat([ps[0], ps[1]], ps[2..], false);
      TextConcat([Merged(ps[0], ps[1])], ps[2..], false);
    }
  }

  /** The hashed text of a list of posts determines it, counts aside, exactly when it is empty or holds a single
      post without the delimiter in its texts: two posts always read as one with a longer info hash. */
  lemma HashTextIdentifiesList(ps: seq<Post>)
    ensures (forall qs :: Text(ps, false) == Text(qs, false) ==> SameButCounts(ps, qs))
            <==> ps == [] || (|ps| == 1 && PlainPost(ps[0]))
  {
    if ps == [] || (|ps| == 1 && PlainPost(ps[0])) {
      forall qs | Text(ps, false) == Text(qs, false) ensures SameButCounts(ps, qs) {
        TextBars(qs);
        TextBars(ps);
        OnlySuchList(ps, qs);
      }
    } else {
      var qs := LookalikeList(ps);
    }
  }

  lemma OnlySuchList(ps: seq<Post>, qs: seq<Post>)
    requires ps == [] || (|ps| == 1 && PlainPost(ps[0]))
    requires Text(ps, false) == Text(qs, false)
    ensures SameButCounts(ps, qs)
  {
    TextBars(qs);
    TextOfNone(false);
    if ps != [] {
      assert ps == [ps[0]];
      TextOfOne(ps[0], false);
      FieldsPlain(ps[0], false);
      BarsCountFields(BAR, Fields(ps[0], false));
      assert qs == [qs[0]];
      PlainPostIsUnmistakable(ps[0], qs[0]);
    }
  }

  /** For one, a hash "a|b" with title "c" and a hash "a" with title "b|c". */
  lemma DelimiterBreaksHashing()
    ensures var p, q := Post(1, "a|b", "c", 0, 0, 0, 0, 0, "", ""), Post(1, "a", "b|c", 0, 0, 0, 0, 0, "", "");
            Fixed(p) != Fixed(q) && Text([p], false) == Text([q], false)
  {
    var p, q := Post(1, "a|b", "c", 0, 0, 0, 0, 0, "", ""), Post(1, "a", "b|c", 0, 0, 0, 0, 0, "", "");
    assert "a" + [BAR] + "b" == "a|b" && "b" + [BAR] + "c" == "b|c";
    MovedInNames(p, q, "a", "b", "c");
  }

  // ---------------------------------------------------------------- pieces

  type Digest = string -> string

  /** What a fresh hash is fed for the posts. */
  method Feed(ps: seq<Post>) returns (text: string)
    ensures text == Text(ps, false)
  {
    var i := 0;
    text := "";
    assert Lines(ps[..0], false) == [];
    while i < |ps|
      invariant 0 <= i <= |ps|
      invariant text == Text(ps[..i], false)
    {
      var line := PrintPost(ps[i], false);
      TextStep(ps, i, false);
      text := text + line;
      i := i + 1;
    }
    assert ps[..i] == ps;
  }

  /** A run of posts and the text fed to its running hash. */
  class Piece {
    var posts: seq<Post>
    var fed: string

    constructor ()
      ensures posts == [] && fed == "" && Stored()
    {
      posts, fed := [], "";
      new;
      assert Lines([], false) == [];
    }

    /** Every post fed to the hash was also stored. */
    ghost predicate Stored()
      reads this
    {
      fed == Text(posts, false)
    }

    /** Piece.Add: refused once more than 1000 posts are stored. */
    method Add(post: Post, store: bool) returns (full: bool)
      modifies this
      ensures full == (|old(posts)| > 1000)
      ensures full ==> posts == old(posts) && fed == old(fed)
      ensures !full ==> fed == old(fed) + Text([post], false)
      ensures !full ==> posts == old(posts) + if store then [post] else []
      ensures store && old(Stored()) ==> Stored()
    {
      if |posts| > PIECE_SIZE {
        return true;
      }
      if store {
        TextConcat(posts, [post], false);
        posts := posts + [post];
      }
      var text := PrintPost(post, false);
      fed := fed + text;
      full := false;
    }

    method Hash(digest: Digest) returns (r: string)
      ensures r == digest(fed)
    {
      r := digest(fed);
    }

    /** Piece.Rehash: start over and feed the stored posts. */
    method Rehash(digest: Digest) returns (r: string)
      modifies this
      ensures posts == old(posts) && Stored() && r == digest(fed)
      ensures old(Stored()) ==> fed == old(fed)
    {
      fed := Feed(posts);
      r := digest(fed);
    }
  }
}
