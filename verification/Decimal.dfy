// Decimal numerals: the shortest digit string of a natural number.
module Decimal {

  function DigitChar(d: nat): (c: char)
    requires d < 10
    ensures '0' <= c <= '9'
  {
    '0' + d as char
  }

  function Numeral(n: nat): (s: string)
    ensures s != []
    decreases n
  {
    if n < 10 then [DigitChar(n)] else Numeral(n / 10) + [DigitChar(n % 10)]
  }

  function DigitValue(c: char): (d: nat)
    requires '0' <= c <= '9'
    ensures d < 10 && DigitChar(d) == c
  {
    (c - '0') as nat
  }

  predicate AllDigits(s: string) {
    forall k :: 0 <= k < |s| ==> '0' <= s[k] <= '9'
  }

  // Reading a digit string from left to right.
  function Value(s: string): nat
    requires AllDigits(s)
  {
    if s == [] then 0 else Value(s[..|s| - 1]) * 10 + DigitValue(s[|s| - 1])
  }

  ghost predicate Canonical(s: string) {
    && s != []
    && AllDigits(s)
    && (|s| > 1 ==> s[0] != '0')
  }

  lemma {:induction false} NumeralIsCanonical(n: nat)
    ensures Canonical(Numeral(n)) && Value(Numeral(n)) == n
    ensures n > 0 ==> Numeral(n)[0] != '0'
  {
    if n < 10 {
    } else {
      NumeralIsCanonical(n / 10);
      var s := Numeral(n);
      assert s[..|s| - 1] == Numeral(n / 10);
    }
  }

  // A canonical digit string is the numeral of its value: there is no other.
  lemma {:induction false} CanonicalIsNumeral(s: string)
    requires Canonical(s)
    ensures Numeral(Value(s)) == s
    ensures s[0] != '0' ==> Value(s) > 0
  {
    var d := DigitValue(s[|s| - 1]);
    if |s| == 1 {
      assert Value(s) == Value(s[..0]) * 10 + d == d;
      assert s == [DigitChar(d)];
    } else {
      CanonicalIsNumeral(s[..|s| - 1]);
      var v := Value(s[..|s| - 1]);
      assert Value(s) == v * 10 + d && v > 0;
      assert Value(s) / 10 == v && Value(s) % 10 == d;
      assert s == s[..|s| - 1] + [DigitChar(d)];
    }
  }

  // Base ten, digit by digit.
  lemma AppendDigit(n: nat, d: nat)
    requires d < 10
    ensures Numeral(10 * n + d) == (if n == 0 then "" else Numeral(n)) + ["0123456789"[d]]
  {
    assert (10 * n + d) / 10 == n && (10 * n + d) % 10 == d;
    assert DigitChar(d) == "0123456789"[d];
  }
}
