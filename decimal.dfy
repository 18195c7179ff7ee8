/**
 * Decimal rendering of integers, as C# string interpolation writes an `int`
 * (ASCII digits, a leading '-' for negatives, no leading zeros), and the
 * matching reader that takes the longest run of digits off the front of a
 * string. The reader is the partner that shows the rendering loses nothing.
 */
module Decimal {
  import opened Wrappers

  predicate IsDigit(c: char) {
    '0' <= c <= '9'
  }

  predicate AllDigits(s: string) {
    forall k :: 0 <= k < |s| ==> IsDigit(s[k])
  }

  /** True when `s` does not begin with a digit, so a digit run before it ends there. */
  predicate StopsDigits(s: string) {
    s == [] || !IsDigit(s[0])
  }

  function DigitChar(d: nat): (c: char)
    requires d < 10
    ensures IsDigit(c)
  {
    ('0' as int + d) as char
  }

  function DigitValue(c: char): (d: nat)
    requires IsDigit(c)
    ensures d < 10 && DigitChar(d) == c
  {
    c as int - '0' as int
  }

  /** The decimal digits of `n`, most significant first. */
  function NatToString(n: nat): (s: string)
    ensures |s| >= 1 && AllDigits(s)
    ensures |s| > 1 ==> s[0] != '0'
    decreases n
  {
    if n < 10 then [DigitChar(n)] else NatToString(n / 10) + [DigitChar(n % 10)]
  }

  /** How C# renders an `int` inside an interpolated string. */
  function IntToString(i: int): (s: string)
    ensures |s| >= 1
    ensures (s[0] == '-') == (i < 0)
    ensures i >= 0 ==> AllDigits(s)
  {
    if i < 0 then "-" + NatToString(-i) else NatToString(i)
  }

  /** The value of a string of digits read most significant first. */
  function DigitsValue(s: string): nat
    requires AllDigits(s)
    decreases |s|
  {
    if s == [] then 0 else DigitsValue(s[..|s| - 1]) * 10 + DigitValue(s[|s| - 1])
  }

  /** The longest prefix of `s` made of digits. */
  function DigitRun(s: string): (d: string)
    ensures |d| <= |s| && d == s[..|d|]
    ensures AllDigits(d)
    ensures StopsDigits(s[|d|..])
    decreases |s|
  {
    if s != [] && IsDigit(s[0]) then [s[0]] + DigitRun(s[1..]) else []
  }

  /** Reads an unsigned number off the front of `s`: its value and the rest. */
  function ReadNat(s: string): (r: Option<(nat, string)>)
    ensures r.Some? ==> |r.value.1| < |s| && r.value.1 == s[|s| - |r.value.1|..]
    ensures r.Some? ==> StopsDigits(r.value.1)
    ensures r.None? <==> StopsDigits(s)
  {
    var d := DigitRun(s);
    if d == [] then None else Some((DigitsValue(d), s[|d|..]))
  }

  /** Reads an optionally negative number off the front of `s`. */
  function ReadInt(s: string): (r: Option<(int, string)>)
    ensures r.Some? ==> StopsDigits(r.value.1)
  {
    if s != [] && s[0] == '-' then
      match ReadNat(s[1..])
      case Some((n, rest)) => Some((0 - n, rest))
      case None => None
    else
      match ReadNat(s)
      case Some((n, rest)) => Some((n as int, rest))
      case None => None
  }

  lemma {:induction false} DigitsValueOfNatToString(n: nat)
    ensures DigitsValue(NatToString(n)) == n
    decreases n
  {
    var s := NatToString(n);
    if n >= 10 {
      assert s[..|s| - 1] == NatToString(n / 10);
      DigitsValueOfNatToString(n / 10);
    }
  }

  lemma {:induction false} DigitRunOfDigits(d: string, t: string)
    requires AllDigits(d) && StopsDigits(t)
    ensures DigitRun(d + t) == d
    decreases |d|
  {
    if d == [] {
      assert d + t == t;
    } else {
      assert (d + t)[1..] == d[1..] + t;
      DigitRunOfDigits(d[1..], t);
    }
  }

  /** Reading a rendered natural number back gives the number and the text after it. */
  lemma ReadNatOfNatToString(n: nat, t: string)
    requires StopsDigits(t)
    ensures ReadNat(NatToString(n) + t) == Some((n, t))
  {
    var d := NatToString(n);
    DigitRunOfDigits(d, t);
    DigitsValueOfNatToString(n);
    assert (d + t)[|d|..] == t;
  }

  /** Reading a rendered integer back gives the integer and the text after it. */
  lemma ReadIntOfIntToString(i: int, t: string)
    requires StopsDigits(t)
    ensures ReadInt(IntToString(i) + t) == Some((i, t))
  {
    if i < 0 {
      ReadIntNegative(-i, t);
    } else {
      ReadIntNonNegative(i, t);
    }
  }

  lemma ReadIntNegative(n: nat, t: string)
    requires n > 0 && StopsDigits(t)
    ensures ReadInt("-" + NatToString(n) + t) == Some((-(n as int), t))
  {
    var d := NatToString(n);
    var s := "-" + d + t;
    assert s[0] == '-' && s[1..] == d + t;
    ReadNatOfNatToString(n, t);
    ReadIntOfMinus(s, n, t);
  }

  lemma ReadIntOfMinus(s: string, n: nat, t: string)
    requires s != [] && s[0] == '-' && ReadNat(s[1..]) == Some((n, t))
    ensures ReadInt(s) == Some((-(n as int), t))
  {
  }

  lemma ReadIntNonNegative(n: nat, t: string)
    requires StopsDigits(t)
    ensures ReadInt(NatToString(n) + t) == Some((n, t))
  {
    var s := NatToString(n) + t;
    assert s[0] == NatToString(n)[0];
    ReadNatOfNatToString(n, t);
  }

  /** Distinct integers are rendered as distinct strings. */
  lemma IntToStringInjective(i: int, j: int)
    requires IntToString(i) == IntToString(j)
    ensures i == j
  {
    ReadIntOfIntToString(i, []);
    ReadIntOfIntToString(j, []);
    assert IntToString(i) + [] == IntToString(j) + [];
  }
}
