/** The buckets of a routing table: one per bit of an address (dht/netdb.go:40-47). */
module Indices {
  const BUCKETS: nat := 160

  type Index = i: int | 0 <= i < BUCKETS
}

/** Twenty-byte peer addresses (dht/address.go): the XOR metric, its numeric order and
    the leading-zero index that selects a routing-table bucket. */
module Addresses {
  import opened Indices

  type byte = x: int | 0 <= x < 256
  type Bytes = seq<byte>

  const ADDRESS_SIZE: nat := 20

  type Address = a: Bytes | |a| == ADDRESS_SIZE witness seq(20, i => 0)

  // ---------------------------------------------------------------- bytes

  function Pow2(n: nat): (p: nat)
    ensures p >= 1
  {
    if n == 0 then 1 else 2 * Pow2(n - 1)
  }

  lemma Pow2Monotone(m: nat, n: nat)
    requires m < n
    ensures 2 * Pow2(m) <= Pow2(n)
  {
    if m + 1 < n { Pow2Monotone(m, n - 1); }
  }

  lemma Pow2Add(m: nat, n: nat)
    ensures Pow2(m + n) == Pow2(m) * Pow2(n)
  {
    if m > 0 {
      Pow2Add(m - 1, n);
      assert Pow2(m + n) == 2 * Pow2((m - 1) + n);
    }
  }

  /** Bit `j` of a byte, counted from the most significant one: (b >> (7-j)) & 1. */
  predicate Bit(b: byte, j: nat)
    requires j < 8
  {
    (b / Pow2(7 - j)) % 2 != 0
  }

  /** Bitwise exclusive or of two unsigned integers. */
  function BitXor(a: nat, b: nat): (r: nat)
  {
    if a == 0 && b == 0 then 0 else (if a % 2 == b % 2 then 0 else 1) + 2 * BitXor(a / 2, b / 2)
  }

  /** Each bit of an exclusive or is set exactly when the two bits differ. */
  lemma {:induction false} BitXorAt(a: nat, b: nat, n: nat)
    ensures (BitXor(a, b) / Pow2(n)) % 2 == if (a / Pow2(n)) % 2 == (b / Pow2(n)) % 2 then 0 else 1
  {
    if n > 0 {
      BitXorAt(a / 2, b / 2, n - 1);
      HalveThenDivide(a, Pow2(n - 1));
      HalveThenDivide(b, Pow2(n - 1));
      HalveThenDivide(BitXor(a, b), Pow2(n - 1));
      assert BitXor(a, b) / 2 == BitXor(a / 2, b / 2);
    }
  }

  lemma HalveThenDivide(a: nat, w: nat)
    requires w > 0
    ensures a / (2 * w) == (a / 2) / w
  {
    var q, r := (a / 2) / w, (a / 2) % w;
    assert a == (2 * w) * q + (2 * r + a % 2);
    QuotientUnique(a, 2 * w, q, 2 * r + a % 2);
  }

  lemma QuotientUnique(a: int, d: int, q: int, r: int)
    requires d > 0 && a == d * q + r && 0 <= r < d
    ensures a / d == q
  {
    assert a == d * (a / d) + a % d;
    LeadingDigitDecides(a / d, q, d, a % d, r);
  }

  /** The position of the highest set bit, counted from one; zero for zero. */
  function BitLength(a: nat): (n: nat)
    ensures n == 0 <==> a == 0
  {
    if a == 0 then 0 else 1 + BitLength(a / 2)
  }

  lemma BitXorCancels(a: nat, b: nat, s: nat)
    ensures BitXor(BitXor(a, s), BitXor(b, s)) == BitXor(a, b)
  {
    if a != 0 || b != 0 || s != 0 { BitXorCancels(a / 2, b / 2, s / 2); }
  }

  lemma BitXorLength(a: nat, b: nat)
    ensures BitLength(a) > BitLength(b) ==> BitLength(BitXor(a, b)) == BitLength(a)
    ensures BitLength(a) < BitLength(b) ==> BitLength(BitXor(a, b)) == BitLength(b)
    ensures BitLength(a) == BitLength(b) > 0 ==> BitLength(BitXor(a, b)) < BitLength(a)
  {
    if a != 0 || b != 0 { BitXorLength(a / 2, b / 2); }
  }

  lemma BitLengthRange(a: nat, n: nat)
    ensures BitLength(a) <= n <==> a < Pow2(n)
  {
    if n > 0 { BitLengthRange(a / 2, n - 1); }
  }

  function ByteXor(a: byte, b: byte): byte {
    XorFits(a, b);
    BitXor(a, b)
  }

  lemma XorFits(a: byte, b: byte)
    ensures BitXor(a, b) < 256
  {
    assert Pow2(8) == 256;
    BitLengthRange(a, 8);
    BitLengthRange(b, 8);
    BitXorLength(a, b);
    BitLengthRange(BitXor(a, b), 8);
  }

  /** The number of leading zero bits of a byte. */
  function ByteZeroes(b: byte): (k: nat)
    ensures k <= 8 && (k == 8 <==> b == 0)
  {
    assert Pow2(8) == 256;
    BitLengthRange(b, 8);
    8 - BitLength(b)
  }

  lemma ByteRange(b: byte)
    requires b != 0
    ensures Pow2(7 - ByteZeroes(b)) <= b < Pow2(8 - ByteZeroes(b))
  {
    BitLengthRange(b, BitLength(b));
    BitLengthRange(b, BitLength(b) - 1);
  }

  lemma BitOfByte(b: byte, j: nat)
    requires j < 8
    requires j <= ByteZeroes(b)
    ensures Bit(b, j) <==> ByteZeroes(b) == j
  {
    BitLengthRange(b, 8 - j);
    BitLengthRange(b, 7 - j);
    DivideBelowTwice(b, Pow2(7 - j));
  }

  lemma DivideBelowTwice(b: int, w: int)
    requires 0 <= b < 2 * w
    ensures b / w == if b < w then 0 else 1
  {
    if b < w { QuotientUnique(b, w, 0, b); } else { QuotientUnique(b, w, 1, b - w); }
  }

  /** How the leading-zero counts of two bytes determine that of their exclusive or. */
  predicate Triangle(p: nat, q: nat, r: nat) {
    && (p < q ==> r == p)
    && (q < p ==> r == q)
    && (p == q < 8 ==> p < r)
    && (p == q == 8 ==> r == 8)
  }

  lemma XorBytes(a: byte, b: byte, s: byte)
    ensures Triangle(ByteZeroes(ByteXor(a, s)), ByteZeroes(ByteXor(b, s)), ByteZeroes(ByteXor(a, b)))
  {
    BitXorCancels(a, b, s);
    BitXorLength(ByteXor(a, s), ByteXor(b, s));
  }

  // ---------------------------------------------------------------- value and order

  /** The unsigned number a byte string denotes, most significant byte first. */
  function Value(a: Bytes): (v: nat)
  {
    if a == [] then 0 else a[0] * Pow2(8 * (|a| - 1)) + Value(a[1..])
  }

  lemma LeadingDigit(d: int, lo: int, hi: int, w: int, r: int)
    requires lo <= d < hi && 0 <= r < w
    ensures lo * w <= d * w + r < hi * w
  {
    MulMonotone(lo, d, w);
    MulMonotone(d + 1, hi, w);
    assert (d + 1) * w == d * w + w;
  }

  lemma MulMonotone(x: int, y: int, w: int)
    requires x <= y && 0 <= w
    ensures x * w <= y * w
  {
    assert 0 <= (y - x) * w;
  }

  lemma LeadingDigitDecides(x: int, y: int, w: int, p: int, q: int)
    requires 0 <= p < w && 0 <= q < w
    ensures x * w + p < y * w + q <==> x < y || (x == y && p < q)
    ensures x * w + p == y * w + q ==> x == y && p == q
  {
    if x < y {
      LeadingDigit(x, x, y, w, p);
    } else if y < x {
      LeadingDigit(y, y, x, w, q);
    }
  }

  lemma {:induction false} ValueBound(a: Bytes)
    ensures Value(a) < Pow2(8 * |a|)
  {
    if a != [] {
      ValueBound(a[1..]);
      var m := 8 * (|a| - 1);
      Pow2Add(8, m);
      assert Pow2(8) == 256;
      LeadingDigit(a[0], 0, 256, Pow2(m), Value(a[1..]));
    }
  }

  /** The number of leading zero bits of a byte string; its bit length when all are zero. */
  function Zeroes(a: Bytes): (k: nat)
    ensures k <= 8 * |a|
  {
    if a == [] then 0 else if a[0] == 0 then 8 + Zeroes(a[1..]) else ByteZeroes(a[0])
  }

  /** A byte string with `k` leading zero bits and a set bit after them lies in the k-th dyadic interval. */
  lemma {:induction false} ZeroesRange(a: Bytes)
    requires Zeroes(a) < 8 * |a|
    ensures Pow2(8 * |a| - 1 - Zeroes(a)) <= Value(a) < Pow2(8 * |a| - Zeroes(a))
  {
    if a[0] == 0 {
      ZeroesRange(a[1..]);
    } else {
      var k, m := ByteZeroes(a[0]), 8 * (|a| - 1);
      ByteRange(a[0]);
      ValueBound(a[1..]);
      Pow2Add(7 - k, m);
      Pow2Add(8 - k, m);
      LeadingDigit(a[0], Pow2(7 - k), Pow2(8 - k), Pow2(m), Value(a[1..]));
    }
  }

  lemma {:induction false} ZeroesAll(a: Bytes)
    ensures Zeroes(a) == 8 * |a| <==> Value(a) == 0
  {
    if a != [] {
      ZeroesAll(a[1..]);
      if a[0] != 0 {
        var b, w := a[0], Pow2(8 * (|a| - 1));
        assert b >= 1;
        assert b * w >= w;
      }
    }
  }

  /** The order `Less` computes: the first differing byte decides. */
  predicate Precedes(a: Bytes, b: Bytes)
    requires |a| <= |b|
  {
    a != [] && (if a[0] == b[0] then Precedes(a[1..], b[1..]) else a[0] < b[0])
  }

  /** `Less` on strings of one length is the order of the numbers they denote, and equal numbers are equal strings. */
  lemma {:induction false} LessIsNumeric(a: Bytes, b: Bytes)
    requires |a| == |b|
    ensures Precedes(a, b) <==> Value(a) < Value(b)
    ensures Value(a) == Value(b) ==> a == b
  {
    if a != [] {
      LessIsNumeric(a[1..], b[1..]);
      assert a == [a[0]] + a[1..] && b == [b[0]] + b[1..];
      ValueBound(a[1..]);
      ValueBound(b[1..]);
      LeadingDigitDecides(a[0], b[0], Pow2(8 * (|a| - 1)), Value(a[1..]), Value(b[1..]));
    }
  }

  // ---------------------------------------------------------------- exclusive or

  function XorOf(a: Bytes, b: Bytes): (r: Bytes)
    requires |a| <= |b|
    ensures |r| == |a|
    ensures forall i :: 0 <= i < |a| ==> r[i] == ByteXor(a[i], b[i])
  {
    seq(|a|, i requires 0 <= i < |a| => ByteXor(a[i], b[i]))
  }

  /** Where two distances from `s` have their first set bits fixes the distance between the two ends. */
  lemma {:induction false} XorZeroes(a: Bytes, b: Bytes, s: Bytes)
    requires |a| == |b| == |s|
    ensures Zeroes(XorOf(a, s)) < Zeroes(XorOf(b, s)) ==> Zeroes(XorOf(a, b)) == Zeroes(XorOf(a, s))
    ensures Zeroes(XorOf(a, s)) == Zeroes(XorOf(b, s)) < 8 * |a| ==> Zeroes(XorOf(a, b)) > Zeroes(XorOf(a, s))
    ensures Zeroes(XorOf(a, s)) == Zeroes(XorOf(b, s)) == 8 * |a| ==> Zeroes(XorOf(a, b)) == 8 * |a|
  {
    forall i | 0 <= i < |a| ensures TriangleAt(XorOf(a, s), XorOf(b, s), XorOf(a, b), i) {
      XorBytes(a[i], b[i], s[i]);
    }
    TriangleZeroes(XorOf(a, s), XorOf(b, s), XorOf(a, b));
  }

  predicate TriangleAt(x: Bytes, y: Bytes, z: Bytes, i: nat)
    requires i < |x| == |y| == |z|
  {
    Triangle(ByteZeroes(x[i]), ByteZeroes(y[i]), ByteZeroes(z[i]))
  }

  lemma {:induction false} TriangleZeroes(x: Bytes, y: Bytes, z: Bytes)
    requires |x| == |y| == |z|
    requires forall i :: 0 <= i < |x| ==> TriangleAt(x, y, z, i)
    ensures Zeroes(x) < Zeroes(y) ==> Zeroes(z) == Zeroes(x)
    ensures Zeroes(x) == Zeroes(y) < 8 * |x| ==> Zeroes(z) > Zeroes(x)
    ensures Zeroes(x) == Zeroes(y) == 8 * |x| ==> Zeroes(z) == 8 * |x|
  {
    if x != [] {
      assert TriangleAt(x, y, z, 0);
      forall i | 0 <= i < |x| - 1 ensures TriangleAt(x[1..], y[1..], z[1..], i) {
        assert TriangleAt(x, y, z, i + 1);
      }
      TriangleZeroes(x[1..], y[1..], z[1..]);
    }
  }

  // ---------------------------------------------------------------- the bit that decides an order

  /** Bit i of a byte string, counted from the most significant one. */
  predicate BitOf(a: Bytes, i: nat)
    requires i < 8 * |a|
  {
    Bit(a[i / 8], i % 8)
  }

  lemma {:induction false} BitXorNonzero(a: nat, b: nat)
    requires a != b
    ensures BitXor(a, b) != 0
  {
    if a / 2 != b / 2 { BitXorNonzero(a / 2, b / 2); }
  }

  /** Of two numbers, the one that has the highest bit in which they differ is the larger. */
  lemma {:induction false} TopBitDecides(a: nat, b: nat)
    requires a != b
    ensures BitXor(a, b) != 0
    ensures a < b <==> (b / Pow2(BitLength(BitXor(a, b)) - 1)) % 2 == 1
  {
    BitXorNonzero(a, b);
    var x := BitXor(a, b);
    assert x / 2 == BitXor(a / 2, b / 2);
    if a / 2 == b / 2 {
      BitXorZeroOfSame(a / 2);
      assert BitLength(x) == 1 && Pow2(0) == 1;
    } else {
      TopBitDecides(a / 2, b / 2);
      HalveThenDivide(b, Pow2(BitLength(x / 2) - 1));
    }
  }

  lemma BitXorZeroOfSame(a: nat)
    ensures BitXor(a, a) == 0
  {
  }

  lemma ByteDecides(a: byte, b: byte)
    requires a != b
    ensures ByteZeroes(ByteXor(a, b)) < 8
    ensures a < b <==> Bit(b, ByteZeroes(ByteXor(a, b)))
  {
    TopBitDecides(a, b);
  }

  lemma SameByte(a: byte)
    ensures ByteXor(a, a) == 0
  {
    BitXorZeroOfSame(a);
  }

  /** The order of two byte strings is decided by the first bit in which they differ. */
  lemma {:induction false} FirstDifferenceDecides(a: Bytes, b: Bytes)
    requires |a| == |b| && Zeroes(XorOf(a, b)) < 8 * |a|
    ensures Precedes(a, b) <==> BitOf(b, Zeroes(XorOf(a, b)))
  {
    var x := XorOf(a, b);
    if a[0] == b[0] {
      SameByte(a[0]);
      assert x[1..] == XorOf(a[1..], b[1..]);
      FirstDifferenceDecides(a[1..], b[1..]);
      var z := Zeroes(x[1..]);
      assert (8 + z) / 8 == 1 + z / 8 && (8 + z) % 8 == z % 8;
    } else {
      ByteDecides(a[0], b[0]);
    }
  }

  lemma BitOfXor(a: Bytes, b: Bytes, i: nat)
    requires |a| == |b| && i < 8 * |a|
    ensures BitOf(XorOf(a, b), i) <==> BitOf(a, i) != BitOf(b, i)
  {
    BitXorAt(a[i / 8], b[i / 8], 7 - i % 8);
  }

  /** The leading zeroes are zero, and the bit after them is not. */
  lemma {:induction false} BitsUpToZeroes(a: Bytes, i: nat)
    requires i < 8 * |a| && i <= Zeroes(a)
    ensures BitOf(a, i) <==> i == Zeroes(a)
  {
    if i < 8 {
      BitOfByte(a[0], i);
    } else {
      BitsUpToZeroes(a[1..], i - 8);
      assert i / 8 == 1 + (i - 8) / 8 && i % 8 == (i - 8) % 8;
    }
  }

  // ---------------------------------------------------------------- the source's loops

  method Less(a: Bytes, other: Bytes) returns (r: bool)
    requires |a| <= |other|
    ensures r == Precedes(a, other)
  {
    for i := 0 to |a|
      invariant Precedes(a, other) == Precedes(a[i..], other[i..])
    {
      if a[i] != other[i] {
        return a[i] < other[i];
      }
    }
    return false;
  }

  method Xor(a: Bytes, other: Bytes) returns (r: array<byte>)
    requires |a| <= |other|
    ensures fresh(r) && r[..] == XorOf(a, other)
  {
    r := new byte[|a|];
    for i := 0 to |a|
      invariant forall k :: 0 <= k < i ==> r[k] == ByteXor(a[k], other[k])
    {
      r[i] := ByteXor(a[i], other[i]);
    }
  }

  method LeadingZeroes(a: Bytes) returns (k: int)
    ensures k == IndexOf(a)
  {
    for i := 0 to |a|
      invariant Zeroes(a) == 8 * i + Zeroes(a[i..])
    {
      for j := 0 to 8
        invariant ByteZeroes(a[i]) >= j
      {
        BitOfByte(a[i], j);
        if Bit(a[i], j) {
          return i * 8 + j;
        }
      }
    }
    return |a| * 8 - 1;
  }

  /** What `LeadingZeroes` returns: the all-zero string shares the last index with the string whose value is one. */
  function IndexOf(a: Bytes): (k: int)
    ensures k < 8 * |a| && (a != [] ==> k >= 0)
  {
    if Zeroes(a) < 8 * |a| then Zeroes(a) else 8 * |a| - 1
  }

  // ---------------------------------------------------------------- geometry of the buckets

  /** The routing-table bucket that the distance from `self` selects for `a`. */
  function Bucket(self: Address, a: Address): (k: Index)
  {
    IndexOf(XorOf(a, self))
  }

  /** addr.Xor(&self).LeadingZeroes() */
  method BucketIndex(self: Address, a: Address) returns (k: Index)
    ensures k == Bucket(self, a)
  {
    var distance := Xor(a, self);
    k := LeadingZeroes(distance[..]);
  }

  /** The index of a distance names its dyadic interval; the last index holds the values 0 and 1. */
  lemma IndexIsInterval(d: Address, k: nat)
    requires k < BUCKETS
    ensures k < 159 ==> (IndexOf(d) == k <==> Pow2(159 - k) <= Value(d) < Pow2(160 - k))
    ensures IndexOf(d) == 159 <==> Value(d) <= 1
  {
    ZeroesAll(d);
    assert Pow2(0) == 1 && Pow2(1) == 2;
    if Zeroes(d) < 160 {
      ZeroesRange(d);
      DyadicIntervals(Value(d), 159 - Zeroes(d), 159 - k);
      DyadicIntervals(Value(d), 159 - Zeroes(d), 0);
    } else {
      Pow2Monotone(0, 160 - k);
    }
  }

  lemma DyadicIntervals(v: nat, m: nat, n: nat)
    requires Pow2(m) <= v < Pow2(m + 1)
    ensures m == n <==> Pow2(n) <= v < Pow2(n + 1)
  {
    if m < n { Pow2Increases(m + 1, n); } else if n < m { Pow2Increases(n + 1, m); }
  }

  lemma Pow2Increases(m: nat, n: nat)
    requires m <= n
    ensures Pow2(m) <= Pow2(n)
  {
    if m < n { Pow2Monotone(m, n); }
  }

  /** Two addresses in different buckets are as far from each other as the lower index says;
      two in one bucket other than the last are nearer to each other than either is to `self`. */
  lemma BucketTriangle(self: Address, a: Address, b: Address)
    ensures Bucket(self, a) < Bucket(self, b) ==> IndexOf(XorOf(a, b)) == Bucket(self, a)
    ensures Bucket(self, a) == Bucket(self, b) < 159 ==> Zeroes(XorOf(a, b)) > Bucket(self, a)
    ensures Bucket(self, a) == Bucket(self, b) == 159 ==> IndexOf(XorOf(a, b)) == 159
  {
    XorZeroes(a, b, self);
    XorZeroes(b, a, self);
    XorCommutes(a, b);
  }

  lemma XorCommutes(a: Bytes, b: Bytes)
    requires |a| == |b|
    ensures XorOf(a, b) == XorOf(b, a)
  {
    forall i | 0 <= i < |a| ensures ByteXor(a[i], b[i]) == ByteXor(b[i], a[i]) { BitXorCommutes(a[i], b[i]); }
  }

  lemma BitXorCommutes(a: nat, b: nat)
    ensures BitXor(a, b) == BitXor(b, a)
  {
  }

  lemma XorCancels(a: Bytes, b: Bytes, s: Bytes)
    requires |a| == |b| == |s|
    ensures XorOf(XorOf(a, s), XorOf(b, s)) == XorOf(a, b)
  {
    forall i | 0 <= i < |a| ensures BitXor(BitXor(a[i], s[i]), BitXor(b[i], s[i])) == BitXor(a[i], b[i]) {
      BitXorCancels(a[i], b[i], s[i]);
    }
  }

  /** Of two addresses in different buckets, the one in the lower bucket is closer to a target exactly when the
      target's own distance has the bit of that bucket set. */
  lemma LowerBucketIsCloser(self: Address, target: Address, a: Address, b: Address)
    requires Bucket(self, a) < Bucket(self, b)
    ensures Precedes(XorOf(a, target), XorOf(b, target)) <==> BitOf(XorOf(target, self), Bucket(self, a))
    ensures Precedes(XorOf(b, target), XorOf(a, target)) <==> !BitOf(XorOf(target, self), Bucket(self, a))
  {
    var i, p, q := Bucket(self, a), XorOf(a, target), XorOf(b, target);
    XorZeroes(a, b, self);
    XorCancels(a, b, target);
    FirstDifferenceDecides(p, q);
    XorCommutes(p, q);
    FirstDifferenceDecides(q, p);
    XorCancels(a, target, self);
    XorCancels(b, target, self);
    BitOfXor(XorOf(a, self), XorOf(target, self), i);
    BitOfXor(XorOf(b, self), XorOf(target, self), i);
    BitsUpToZeroes(XorOf(a, self), i);
    BitsUpToZeroes(XorOf(b, self), i);
  }

  /** Every address of the target's own bucket is strictly closer to the target than any address of another bucket. */
  lemma OwnBucketIsCloser(self: Address, target: Address, near: Address, far: Address)
    requires Bucket(self, near) == Bucket(self, target) != Bucket(self, far)
    ensures Precedes(XorOf(near, target), XorOf(far, target))
  {
    var d := XorOf(target, self);
    if Bucket(self, near) < Bucket(self, far) {
      LowerBucketIsCloser(self, target, near, far);
      BitsUpToZeroes(d, Bucket(self, near));
    } else {
      LowerBucketIsCloser(self, target, far, near);
      BitsUpToZeroes(d, Bucket(self, far));
    }
  }
}
