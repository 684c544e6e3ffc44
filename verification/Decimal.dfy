/** Decimal integers as strconv prints and parses them. */
module Decimal {

  import opened Options

  /** The delimiter of everything that is printed, parsed and hashed. */
  const BAR := '|'

  // ---------------------------------------------------------------- decimal integers

  predicate IsInt64(n: int) {
    -0x8000_0000_0000_0000 <= n < 0x8000_0000_0000_0000
  }

  function Digit(d: nat): (c: char)
    requires d < 10
    ensures '0' <= c <= '9'
  {
    (48 + d) as char
  }

  predicate IsDigit(c: char) {
    '0' <= c <= '9'
  }

  function DigitValue(c: char): (d: nat)
    requires IsDigit(c)
    ensures d < 10
  {
    c as int - 48
  }

  function Digits(n: nat): (s: string)
    ensures s != [] && forall i :: 0 <= i < |s| ==> IsDigit(s[i])
  {
    if n < 10 then [Digit(n)] else Digits(n / 10) + [Digit(n % 10)]
  }

  /** strconv.Itoa */
  function Itoa(n: int): (s: string) {
    if n < 0 then ['-'] + Digits(-n) else Digits(n)
  }

  function Number(s: string): (r: Option<nat>) {
    if s == [] || !IsDigit(s[|s| - 1]) then None
    else if |s| == 1 then Some(DigitValue(s[0]))
    else
      match Number(s[..|s| - 1])
      case None => None
      case Some(n) => Some(10 * n + DigitValue(s[|s| - 1]))
  }

  /** strconv.Atoi: an optional sign, at least one digit, and a value that fits 64 bits. */
  function Atoi(s: string): (r: Option<int>) {
    if s != [] && (s[0] == '-' || s[0] == '+') then
      match Number(s[1..])
      case None => None
      case Some(n) => var v: int := if s[0] == '-' then 0 - n else n; if IsInt64(v) then Some(v) else None
    else
      match Number(s)
      case None => None
      case Some(n) => if IsInt64(n) then Some(n) else None
  }

  /** A number times ten to the n. */
  function Tenfold(a: nat, n: nat): nat {
    if n == 0 then a else 10 * Tenfold(a, n - 1)
  }

  /** A digit stands for itself. */
  lemma NumberOfDigit(c: char)
    requires IsDigit(c)
    ensures Number([c]) == Some(c as int - '0' as int)
  {
  }

  lemma NumberSnoc(s: string, c: char)
    requires s != []
    ensures Number(s + [c]).Some? <==> Number(s).Some? && IsDigit(c)
    ensures Number(s + [c]).Some? ==> Number(s + [c]).value == 10 * Number(s).value + DigitValue(c)
  {
    var t := s + [c];
    assert t[..|t| - 1] == s && t[|t| - 1] == c;
  }

  /** Digits count by their place, and there is no number without them. */
  lemma {:induction false} NumberOfConcat(s: string, t: string)
    requires s != [] && t != []
    ensures Number(s + t).Some? <==> Number(s).Some? && Number(t).Some?
    ensures Number(s + t).Some? ==> Number(s + t).value == Tenfold(Number(s).value, |t|) + Number(t).value
    decreases |t|
  {
    var front, c := t[..|t| - 1], t[|t| - 1];
    if front == [] {
      assert t == [c];
      NumberSnoc(s, c);
    } else {
      NumberOfConcat(s, front);
      assert s + t == (s + front) + [c] && t == front + [c];
      NumberSnoc(s + front, c);
      NumberSnoc(front, c);
    }
  }

  /** A text is a number exactly when it is made of digits, and of at least one. */
  lemma {:induction false} NumberExactly(s: string)
    ensures Number(s).Some? <==> s != [] && forall i :: 0 <= i < |s| ==> '0' <= s[i] <= '9'
  {
    if |s| > 1 {
      NumberExactly(s[..|s| - 1]);
      assert forall i :: 0 <= i < |s| - 1 ==> s[..|s| - 1][i] == s[i];
    }
  }

  /** The digits of a text, past a sign if it starts with one. */
  function Unsigned(s: string): string {
    if s != [] && (s[0] == '-' || s[0] == '+') then s[1..] else s
  }

  /** What Atoi accepts: digits after an optional sign, of a value that fits 64 bits, negative after a minus. */
  lemma AtoiExactly(s: string)
    ensures Atoi(s).Some? <==>
            && Number(Unsigned(s)).Some?
            && var n := Number(Unsigned(s)).value;
               if s[0] == '-' then n <= 9223372036854775808 else n <= 9223372036854775807
    ensures Atoi(s).Some? ==> Atoi(s).value == (if s[0] == '-' then 0 - Number(Unsigned(s)).value else Number(Unsigned(s)).value)
  {
  }

  lemma {:induction false} NumberOfDigits(n: nat)
    ensures Number(Digits(n)) == Some(n)
  {
    if n >= 10 {
      NumberOfDigits(n / 10);
      var s := Digits(n);
      assert s[..|s| - 1] == Digits(n / 10);
    }
  }

  lemma {:induction false} DigitsLead(n: nat)
    ensures Digits(n)[0] == '0' ==> Digits(n) == "0" && n == 0
  {
    if n >= 10 {
      DigitsLead(n / 10);
      assert Digits(n)[0] == Digits(n / 10)[0];
    }
  }

  /** Itoa prints no leading zero, and a sign exactly for negative numbers. With `AtoiOfItoa` this fixes the text. */
  lemma ItoaIsShortest(n: int)
    ensures Itoa(n)[0] == '0' ==> Itoa(n) == "0" && n == 0
    ensures Itoa(n)[0] == '-' <==> n < 0
    ensures n < 0 ==> |Itoa(n)| > 1 && Itoa(n)[1] != '0' && IsDigit(Itoa(n)[1])
  {
    DigitsLead(if n < 0 then -n else n);
  }

  /** What Itoa prints, Atoi reads back. */
  lemma AtoiOfItoa(n: int)
    requires IsInt64(n)
    ensures Atoi(Itoa(n)) == Some(n)
  {
    var s := Itoa(n);
    if n < 0 {
      NumberOfDigits(-n);
      assert s[0] == '-' && s[1..] == Digits(-n);
    } else {
      NumberOfDigits(n);
      assert IsDigit(s[0]);
    }
  }

  /** Printing is injective on all integers. */
  lemma ItoaInjective(m: int, n: int)
    requires Itoa(m) == Itoa(n)
    ensures m == n
  {
    var s := Itoa(m);
    NumberOfDigits(if m < 0 then -m else m);
    NumberOfDigits(if n < 0 then -n else n);
    assert m < 0 ==> s[0] == '-' && s[1..] == Digits(-m);
    assert n < 0 ==> s[0] == '-' && s[1..] == Digits(-n);
  }

  lemma ItoaPlain(n: int)
    ensures BAR !in Itoa(n)
  {
  }
}
