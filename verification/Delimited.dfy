/** Fields that each end in a delimiter, over any alphabet. */
module Delimited {

  /** Every field followed by the separator. */
  function Terminated<C>(fs: seq<seq<C>>, sep: seq<C>): (s: seq<C>) {
    if fs == [] then [] else fs[0] + sep + Terminated(fs[1..], sep)
  }

  /** No field holds the delimiter. */
  ghost predicate AllPlain<C>(bar: C, fs: seq<seq<C>>) {
    forall i :: 0 <= i < |fs| ==> bar !in fs[i]
  }

  lemma {:induction false} TerminatedConcat<C>(fs: seq<seq<C>>, gs: seq<seq<C>>, sep: seq<C>)
    ensures Terminated(fs + gs, sep) == Terminated(fs, sep) + Terminated(gs, sep)
  {
    if fs == [] {
      assert fs + gs == gs;
    } else {
      var hs := fs + gs;
      assert hs[0] == fs[0] && hs[1..] == fs[1..] + gs;
      TerminatedConcat(fs[1..], gs, sep);
      var f := fs[0] + sep;
      assert f + (Terminated(fs[1..], sep) + Terminated(gs, sep)) == f + Terminated(fs[1..], sep) + Terminated(gs, sep);
    }
  }

  lemma TerminatedSnoc<C>(fs: seq<seq<C>>, f: seq<C>, sep: seq<C>)
    ensures Terminated(fs + [f], sep) == Terminated(fs, sep) + f + sep
  {
    TerminatedConcat(fs, [f], sep);
    assert Terminated([f], sep) == f + sep;
    assert Terminated(fs, sep) + (f + sep) == Terminated(fs, sep) + f + sep;
  }

  /** The position of the first delimiter; the length when there is none. */
  function FirstBar<C(==)>(bar: C, s: seq<C>): (k: nat)
    ensures k <= |s| && (k < |s| ==> s[k] == bar)
    ensures bar !in s[..k]
  {
    if s == [] || s[0] == bar then 0 else
      var k := FirstBar(bar, s[1..]);
      assert s[..1 + k] == [s[0]] + s[1..][..k];
      1 + k
  }

  lemma {:induction false} FirstBarAt<C>(bar: C, f: seq<C>, rest: seq<C>)
    requires bar !in f
    ensures FirstBar(bar, f + [bar] + rest) == |f|
  {
    var s := f + [bar] + rest;
    if f == [] {
      assert s[0] == bar;
    } else {
      assert s[0] == f[0] && s[1..] == f[1..] + [bar] + rest;
      FirstBarAt(bar, f[1..], rest);
    }
  }

  /** The fields of a text: what ends in a delimiter, in order. A last stretch without one is no field. */
  function Tokens<C(==)>(bar: C, s: seq<C>): (ts: seq<seq<C>>)
    decreases |s|
  {
    var k := FirstBar(bar, s);
    if k == |s| then [] else [s[..k]] + Tokens(bar, s[k + 1..])
  }

  lemma {:induction false} TokensPlain<C>(bar: C, s: seq<C>)
    ensures AllPlain(bar, Tokens(bar, s))
    decreases |s|
  {
    var k := FirstBar(bar, s);
    if k < |s| {
      TokensPlain(bar, s[k + 1..]);
    }
  }

  lemma TokensCons<C>(bar: C, f: seq<C>, rest: seq<C>)
    requires bar !in f
    ensures Tokens(bar, f + [bar] + rest) == [f] + Tokens(bar, rest)
  {
    var s := f + [bar] + rest;
    FirstBarAt(bar, f, rest);
    assert s[..|f|] == f && s[|f| + 1..] == rest;
  }

  lemma TokensStep<C>(bar: C, f: seq<C>, text: seq<C>, rest: seq<C>, ts: seq<seq<C>>)
    requires bar !in f && Tokens(bar, text + rest) == ts
    ensures Tokens(bar, f + [bar] + text + rest) == [f] + ts
  {
    TokensCons(bar, f, text + rest);
    assert f + [bar] + (text + rest) == f + [bar] + text + rest;
  }

  /** Splitting undoes joining, whatever comes after. */
  lemma {:induction false} TokensOfTerminated<C>(bar: C, fs: seq<seq<C>>, rest: seq<C>)
    requires AllPlain(bar, fs)
    ensures Tokens(bar, Terminated(fs, [bar]) + rest) == fs + Tokens(bar, rest)
  {
    var ts := Tokens(bar, rest);
    if fs == [] {
      assert Terminated(fs, [bar]) + rest == rest;
    } else {
      TokensOfTerminated(bar, fs[1..], rest);
      TokensStep(bar, fs[0], Terminated(fs[1..], [bar]), rest, fs[1..] + ts);
      assert [fs[0]] + (fs[1..] + ts) == fs + ts;
    }
  }

  lemma TokensOfStub<C>(bar: C, f: seq<C>)
    requires bar !in f
    ensures Tokens(bar, f) == []
  {
  }

  /** Of a text that breaks off, the fields that are there in full are read. */
  lemma {:induction false} TokensOfCut<C>(bar: C, fs: seq<seq<C>>, cut: nat) returns (m: nat)
    requires AllPlain(bar, fs) && cut <= |Terminated(fs, [bar])|
    ensures m <= |fs| && Tokens(bar, Terminated(fs, [bar])[..cut]) == fs[..m]
    ensures cut < |Terminated(fs, [bar])| ==> m < |fs|
  {
    var text := Terminated(fs, [bar]);
    if fs == [] || cut <= |fs[0]| {
      assert fs != [] ==> text[..cut] == fs[0][..cut];
      TokensOfStub(bar, text[..cut]);
      m := 0;
    } else {
      var rest := Terminated(fs[1..], [bar]);
      var left := cut - |fs[0]| - 1;
      assert text[..cut] == fs[0] + [bar] + rest[..left];
      TokensCons(bar, fs[0], rest[..left]);
      m := TokensOfCut(bar, fs[1..], left);
      m := m + 1;
      assert [fs[0]] + fs[1..][..m - 1] == fs[..m];
    }
  }

  /** A text made of delimited fields without delimiters inside determines the fields. */
  lemma TerminatedInjective<C>(bar: C, fs: seq<seq<C>>, gs: seq<seq<C>>)
    requires AllPlain(bar, fs) && AllPlain(bar, gs) && Terminated(fs, [bar]) == Terminated(gs, [bar])
    ensures fs == gs
  {
    TokensOfTerminated(bar, fs, []);
    TokensOfTerminated(bar, gs, []);
    assert Terminated(fs, [bar]) + [] == Terminated(fs, [bar]);
    assert fs + Tokens(bar, []) == fs && gs + Tokens(bar, []) == gs;
  }

  // ---------------------------------------------------------------- counting delimiters

  function Bars<C(==)>(bar: C, s: seq<C>): (n: nat) {
    if s == [] then 0 else (if s[0] == bar then 1 else 0) + Bars(bar, s[1..])
  }

  lemma {:induction false} BarsConcat<C>(bar: C, s: seq<C>, r: seq<C>)
    ensures Bars(bar, s + r) == Bars(bar, s) + Bars(bar, r)
  {
    if s == [] {
      assert s + r == r;
    } else {
      var c := s + r;
      assert c[0] == s[0] && c[1..] == s[1..] + r;
      BarsConcat(bar, s[1..], r);
    }
  }

  lemma {:induction false} BarsNone<C>(bar: C, s: seq<C>)
    ensures Bars(bar, s) == 0 <==> bar !in s
  {
    if s != [] {
      BarsNone(bar, s[1..]);
    }
  }

  lemma TerminatedBars<C>(bar: C, f: seq<C>, fs: seq<seq<C>>)
    ensures Bars(bar, f + [bar] + Terminated(fs, [bar])) == Bars(bar, f) + 1 + Bars(bar, Terminated(fs, [bar]))
  {
    BarsConcat(bar, f + [bar], Terminated(fs, [bar]));
    BarsConcat(bar, f, [bar]);
    assert [bar][1..] == [];
  }

  lemma AllPlainCons<C>(bar: C, fs: seq<seq<C>>)
    requires fs != []
    ensures AllPlain(bar, fs) <==> bar !in fs[0] && AllPlain(bar, fs[1..])
  {
    if bar !in fs[0] && AllPlain(bar, fs[1..]) {
      forall i | 0 <= i < |fs| ensures bar !in fs[i] {
        if i > 0 { assert fs[i] == fs[1..][i - 1]; }
      }
    }
  }

  /** A text of delimited fields has as many delimiters as fields exactly when no field holds one. */
  lemma {:induction false} BarsCountFields<C>(bar: C, fs: seq<seq<C>>)
    ensures Bars(bar, Terminated(fs, [bar])) >= |fs|
    ensures Bars(bar, Terminated(fs, [bar])) == |fs| <==> AllPlain(bar, fs)
  {
    if fs != [] {
      BarsCountFields(bar, fs[1..]);
      TerminatedBars(bar, fs[0], fs[1..]);
      BarsNone(bar, fs[0]);
      AllPlainCons(bar, fs);
    }
  }

  /** Plain fields cannot be mistaken for other fields, plain or not, of the same number. */
  lemma PlainIsUnmistakable<C>(bar: C, fs: seq<seq<C>>, gs: seq<seq<C>>)
    requires AllPlain(bar, fs) && |fs| == |gs| && Terminated(fs, [bar]) == Terminated(gs, [bar])
    ensures fs == gs
  {
    BarsCountFields(bar, fs);
    BarsCountFields(bar, gs);
    TerminatedInjective(bar, fs, gs);
  }

  lemma PairJoins<C>(x: seq<C>, y: seq<C>, z: seq<C>, sep: seq<C>)
    ensures Terminated([x + sep + y, z], sep) == Terminated([x, y + sep + z], sep)
  {
    var p, q := x + sep + y, y + sep + z;
    assert [p, z] == [p] + [z] && [x, q] == [x] + [q];
    TerminatedSnoc([p], z, sep);
    TerminatedSnoc([x], q, sep);
    assert Terminated([p], sep) == p + sep && Terminated([x], sep) == x + sep;
    assert p + sep + z == x + sep + q;
  }

  /** A delimiter inside a field can be read as belonging to its neighbour. */
  lemma DelimiterMoves<C>(bar: C, head: seq<seq<C>>, x: seq<C>, y: seq<C>, z: seq<C>, tail: seq<seq<C>>)
    ensures Terminated(head + [x + [bar] + y, z] + tail, [bar]) == Terminated(head + [x, y + [bar] + z] + tail, [bar])
  {
    var p, q := [x + [bar] + y, z], [x, y + [bar] + z];
    TerminatedConcat(head + p, tail, [bar]);
    TerminatedConcat(head + q, tail, [bar]);
    TerminatedConcat(head, p, [bar]);
    TerminatedConcat(head, q, [bar]);
    PairJoins(x, y, z, [bar]);
  }

  lemma {:induction false} TokensCount<C>(bar: C, s: seq<C>)
    ensures |Tokens(bar, s)| == Bars(bar, s)
    decreases |s|
  {
    var k := FirstBar(bar, s);
    BarsNone(bar, s[..k]);
    BarsConcat(bar, s[..k], s[k..]);
    assert s == s[..k] + s[k..];
    if k < |s| {
      TokensCount(bar, s[k + 1..]);
      assert s[k..][0] == bar && s[k..][1..] == s[k + 1..];
    }
  }

  lemma TerminatedCons<C>(f: seq<C>, fs: seq<seq<C>>, sep: seq<C>)
    ensures Terminated([f] + fs, sep) == f + sep + Terminated(fs, sep)
  {
    assert ([f] + fs)[1..] == fs;
  }

  lemma EndsInBar<C>(bar: C, s: seq<C>)
    requires s != [] && s[|s| - 1] == bar
    ensures var k := FirstBar(bar, s); k < |s| && s == s[..k] + [bar] + s[k + 1..]
  {
    BarIsFound(bar, s, FirstBar(bar, s));
  }

  lemma BarIsFound<C>(bar: C, s: seq<C>, k: nat)
    requires s != [] && s[|s| - 1] == bar && k <= |s| && bar !in s[..k] && (k < |s| ==> s[k] == bar)
    ensures k < |s| && s == s[..k] + [bar] + s[k + 1..]
  {
    assert s[..|s|] == s;
  }

  /** Joining undoes splitting, of a text that ends where a field does. */
  lemma {:induction false} TerminatedOfTokens<C>(bar: C, s: seq<C>)
    requires s == [] || s[|s| - 1] == bar
    ensures Terminated(Tokens(bar, s), [bar]) == s
    decreases |s|
  {
    if s != [] {
      EndsInBar(bar, s);
      var k := FirstBar(bar, s);
      TerminatedOfTokens(bar, s[k + 1..]);
      TerminatedCons(s[..k], Tokens(bar, s[k + 1..]), [bar]);
    }
  }

  lemma {:induction false} TerminatedEnds<C>(fs: seq<seq<C>>, bar: C)
    ensures var s := Terminated(fs, [bar]); s == [] || s[|s| - 1] == bar
  {
    if fs != [] {
      TerminatedEnds(fs[1..], bar);
    }
  }

  lemma TokensAtLeast<C>(bar: C, fs: seq<seq<C>>, rest: seq<C>)
    ensures |Tokens(bar, Terminated(fs, [bar]) + rest)| >= |fs|
  {
    TokensCount(bar, Terminated(fs, [bar]) + rest);
    BarsConcat(bar, Terminated(fs, [bar]), rest);
    BarsCountFields(bar, fs);
  }

  lemma FirstToken<C>(bar: C, fs: seq<seq<C>>, rest: seq<C>)
    requires fs != [] && bar !in fs[0]
    ensures var ts := Tokens(bar, Terminated(fs, [bar]) + rest); |ts| >= |fs| && ts[0] == fs[0]
  {
    TokensAtLeast(bar, fs, rest);
    var more := Terminated(fs[1..], [bar]);
    TokensStep(bar, fs[0], more, rest, Tokens(bar, more + rest));
  }

  /** Several fields as the text of one. */
  function Join<C>(fs: seq<seq<C>>, sep: seq<C>): (s: seq<C>)
    requires fs != []
  {
    if |fs| == 1 then fs[0] else fs[0] + sep + Join(fs[1..], sep)
  }

  lemma {:induction false} JoinTerminated<C>(fs: seq<seq<C>>, sep: seq<C>)
    requires fs != []
    ensures Join(fs, sep) + sep == Terminated(fs, sep)
  {
    if |fs| > 1 {
      JoinTerminated(fs[1..], sep);
      assert fs[0] + sep + Join(fs[1..], sep) + sep == fs[0] + sep + (Join(fs[1..], sep) + sep);
    }
  }

  /** One field can stand for several. */
  lemma JoinedInside<C>(head: seq<seq<C>>, mid: seq<seq<C>>, tail: seq<seq<C>>, sep: seq<C>)
    requires mid != []
    ensures Terminated(head + [Join(mid, sep)] + tail, sep) == Terminated(head + mid + tail, sep)
  {
    var one := [Join(mid, sep)];
    TerminatedConcat(head + one, tail, sep);
    TerminatedConcat(head + mid, tail, sep);
    TerminatedConcat(head, one, sep);
    TerminatedConcat(head, mid, sep);
    JoinTerminated(mid, sep);
    assert Terminated(one, sep) == one[0] + sep;
  }

  // ---------------------------------------------------------------- lines of fields

  function Flat<F>(ls: seq<seq<F>>): seq<F> {
    if ls == [] then [] else ls[0] + Flat(ls[1..])
  }

  lemma {:induction false} FlatConcat<F>(a: seq<seq<F>>, b: seq<seq<F>>)
    ensures Flat(a + b) == Flat(a) + Flat(b)
  {
    if a == [] {
      assert a + b == b;
    } else {
      var c := a + b;
      assert c[0] == a[0] && c[1..] == a[1..] + b;
      FlatConcat(a[1..], b);
      assert a[0] + (Flat(a[1..]) + Flat(b)) == a[0] + Flat(a[1..]) + Flat(b);
    }
  }

  ghost predicate AllWide<F>(ls: seq<seq<F>>, width: nat) {
    forall i :: 0 <= i < |ls| ==> |ls[i]| == width
  }

  /** Lines of one width are determined by their concatenation. */
  lemma {:induction false} FlatInjective<F>(a: seq<seq<F>>, b: seq<seq<F>>, width: nat)
    requires width > 0 && AllWide(a, width) && AllWide(b, width) && Flat(a) == Flat(b)
    ensures a == b
  {
    if a != [] && b != [] {
      assert Flat(a)[..width] == a[0] && Flat(a)[width..] == Flat(a[1..]);
      assert Flat(b)[..width] == b[0] && Flat(b)[width..] == Flat(b[1..]);
      FlatInjective(a[1..], b[1..], width);
      assert a == [a[0]] + a[1..] && b == [b[0]] + b[1..];
    }
  }

  lemma {:induction false} FlatLength<C>(ls: seq<seq<C>>, width: nat)
    requires AllWide(ls, width)
    ensures |Flat(ls)| == width * |ls|
  {
    if ls != [] {
      assert width * |ls| == width * |ls[1..]| + width;
      FlatLength(ls[1..], width);
    }
  }

  lemma {:induction false} FlatPlain<C>(bar: C, ls: seq<seq<seq<C>>>)
    requires forall i :: 0 <= i < |ls| ==> AllPlain(bar, ls[i])
    ensures AllPlain(bar, Flat(ls))
  {
    if ls != [] {
      FlatPlain(bar, ls[1..]);
    }
  }
}
