/** Printing a 32-bit integer backwards into a 12-byte buffer. */
module Itoa {
  import opened Words

  const ZERO: Byte := 48
  const MINUS: Byte := 45

  type Int32 = i: int | -0x8000_0000 <= i < 0x8000_0000

  /** C's division and remainder, which truncate toward zero. */
  function TruncDiv(a: int, b: nat): int
    requires b > 0
  {
    if a >= 0 then a / b else -((-a) / b)
  }

  function TruncMod(a: int, b: nat): int
    requires b > 0
  {
    a - b * TruncDiv(a, b)
  }

  /** The decimal digits of m, most significant first; none for zero. */
  function Digits(m: nat): (s: seq<Byte>) {
    if m == 0 then [] else Digits(m / 10) + [ZERO + m % 10]
  }

  /** The text of an integer. */
  function Text(i: int): seq<Byte> {
    (if i < 0 then [MINUS] else []) + (if i == 0 then [ZERO] else Digits(if i < 0 then -i else i))
  }

  predicate AllDigits(s: seq<Byte>) { forall k :: 0 <= k < |s| ==> 48 <= s[k] <= 57 }

  /** Value of a digit string, as a reader would compute it. */
  function Value(s: seq<Byte>): nat
    requires AllDigits(s)
  {
    if s == [] then 0
    else
      var last: int := s[|s| - 1];
      10 * Value(s[..|s| - 1]) + (last - 48)
  }

  function Unsigned(s: seq<Byte>): seq<Byte> {
    if s != [] && s[0] == 45 then s[1..] else s
  }

  /** A decimal numeral: an optional sign, then at least one digit, with no leading zero
      unless it is the only digit. */
  predicate IsNumeral(s: seq<Byte>) {
    var d := Unsigned(s);
    d != [] && AllDigits(d) && (d[0] == 48 ==> |d| == 1)
  }

  function Parsed(s: seq<Byte>): int
    requires IsNumeral(s)
  {
    var v: int := Value(Unsigned(s));
    if s[0] == 45 then -v else v
  }

  lemma {:induction false} DigitsValue(m: nat)
    ensures AllDigits(Digits(m)) && Value(Digits(m)) == m
    ensures m > 0 ==> |Digits(m)| > 0 && Digits(m)[0] != ZERO
  {
    if m > 0 {
      DigitsValue(m / 10);
      var d := Digits(m);
      assert d[..|d| - 1] == Digits(m / 10);
      if m / 10 > 0 { assert d[0] == Digits(m / 10)[0]; }
    }
  }

  /** For every integer, hence for every 32-bit one with the least included, the text is a
      numeral with that value. */
  lemma TextRoundTrip(i: int)
    ensures IsNumeral(Text(i)) && Parsed(Text(i)) == i
  {
    var t := Text(i);
    var m := if i < 0 then -i else i;
    DigitsValue(m);
    if i < 0 {
      assert t[1..] == Digits(m);
    } else if i == 0 {
      assert t == [ZERO] && t[..0] == [] && Value([]) == 0;
      assert Value(t) == 0;
    } else {
      assert t == Digits(i);
    }
  }

  function Pow10(n: nat): nat { if n == 0 then 1 else 10 * Pow10(n - 1) }

  lemma TenDigits()
    ensures Pow10(10) == 10_000_000_000
  {
    assert Pow10(5) == 100_000;
  }

  lemma DigitsStep(m: nat, written: seq<Byte>, goal: seq<Byte>, d: Byte)
    requires m > 0 && d == ZERO + m % 10 && Digits(m) + written == goal
    ensures Digits(m / 10) + ([d] + written) == goal
  {
    assert Digits(m) == Digits(m / 10) + [d];
    assert (Digits(m / 10) + [d]) + written == Digits(m / 10) + ([d] + written);
  }

  lemma QuotientBound(m: nat, n: nat)
    requires 0 < m < Pow10(n)
    ensures n > 0 && m / 10 < Pow10(n - 1)
  {
  }

  /** Truncating division of a negative number, in terms of its magnitude. */
  lemma NegativeDigit(v: int)
    requires v < 0
    ensures TruncMod(v, 10) == -((-v) % 10) && TruncDiv(v, 10) == -((-v) / 10)
  {
  }

  /** The digits of -v in the buffer before index loc, most significant first. */
  method WriteDigits(v0: int, text: array<Byte>) returns (loc: nat)
    requires text.Length == 12 && -0x8000_0000 <= v0 <= 0 && text[11] == 0
    modifies text
    ensures 1 <= loc <= 11 && text[11] == 0 && text[loc..11] == Digits(-v0)
  {
    loc := 11;
    var v := v0;
    ghost var goal := Digits(-v0);
    TenDigits();
    assert text[11..11] == [] && goal + [] == goal;
    hide Digits, Pow10, TruncDiv, TruncMod, Text;
    while v != 0
      invariant 1 <= loc <= 11 && v <= 0 && text[11] == 0
      invariant -v < Pow10(loc - 1)
      invariant Digits(-v) + text[loc..11] == goal
      decreases -v
    {
      ghost var written := text[loc..11];
      NegativeDigit(v);
      var digit := ZERO - TruncMod(v, 10);
      QuotientBound(-v, loc - 1);
      DigitsStep(-v, written, goal, digit);
      loc := loc - 1;
      text[loc] := digit;
      assert text[loc..11] == [digit] + written;
      v := TruncDiv(v, 10);
    }
    NoDigits(0);
    assert text[loc..11] == goal;
  }

  /** itoa: digits are produced from the non-positive value, so the least integer needs no
      negation; the text ends up at text[loc..11], NUL-terminated, inside the buffer. */
  method Itoa(i: Int32, text: array<Byte>) returns (loc: nat)
    requires text.Length == 12
    modifies text
    ensures loc <= 11 && text[11] == 0 && text[loc..11] == Text(i)
  {
    text[11] := 0;
    var neg := true;
    var v: int := i;
    if v >= 0 {
      neg := false;
      v := -v;
    }
    loc := WriteDigits(v, text);
    ghost var digits := text[loc..11];
    NoDigits(-v);
    TextIs(i, neg, -v, digits);
    hide Digits, Text;
    if loc == 11 {
      loc := loc - 1;
      text[loc] := ZERO;
      digits := [ZERO];
      assert text[loc..11] == digits;
    }
    assert [] + digits == digits;
    if neg {
      loc := loc - 1;
      text[loc] := MINUS;
      assert text[loc..11] == [MINUS] + digits;
    }
  }

  /** The text put together from sign and digits. */
  lemma TextIs(i: int, neg: bool, m: nat, digits: seq<Byte>)
    requires (neg <==> i < 0) && m == (if i < 0 then -i else i) && digits == Digits(m)
    ensures Text(i) == (if neg then [MINUS] else []) + (if m == 0 then [ZERO] else digits)
  {
  }

  lemma NoDigits(m: nat)
    ensures Digits(m) == [] <==> m == 0
  {
  }
}
