// Upper-case hexadecimal numerals, as printed with std::hex and std::uppercase.
module Hexadecimal {

  function DigitChar(d: nat): char
    requires d < 16
  {
    if d < 10 then '0' + d as char else 'A' + (d - 10) as char
  }

  predicate IsXDigit(c: char) { '0' <= c <= '9' || 'A' <= c <= 'F' || 'a' <= c <= 'f' }

  function DigitValue(c: char): (d: nat)
    requires IsXDigit(c)
    ensures d < 16
  {
    if c <= '9' then (c - '0') as nat else if c <= 'F' then (c - 'A') as nat + 10 else (c - 'a') as nat + 10
  }

  function Numeral(n: nat): (s: string)
    ensures s != []
    decreases n
  {
    if n < 16 then [DigitChar(n)] else Numeral(n / 16) + [DigitChar(n % 16)]
  }

  predicate AllXDigits(s: string) {
    forall k :: 0 <= k < |s| ==> IsXDigit(s[k])
  }

  function Value(s: string): nat
    requires AllXDigits(s)
  {
    if s == [] then 0 else Value(s[..|s| - 1]) * 16 + DigitValue(s[|s| - 1])
  }

  lemma {:induction false} NumeralReadsBack(n: nat)
    ensures AllXDigits(Numeral(n)) && Value(Numeral(n)) == n
  {
    if n < 16 {
    } else {
      NumeralReadsBack(n / 16);
      var s := Numeral(n);
      assert s[..|s| - 1] == Numeral(n / 16);
    }
  }

  // Base sixteen with capital letters, digit by digit.
  lemma AppendDigit(n: nat, d: nat)
    requires d < 16
    ensures Numeral(16 * n + d) == (if n == 0 then "" else Numeral(n)) + ["0123456789ABCDEF"[d]]
  {
    assert (16 * n + d) / 16 == n && (16 * n + d) % 16 == d;
    assert DigitChar(d) == "0123456789ABCDEF"[d];
  }

  // The reader knows the digits of both cases, and nothing else.
  lemma DigitsOfBothCases(c: char)
    ensures IsXDigit(c) <==> c in "0123456789ABCDEFabcdef"
    ensures forall d :: 0 <= d < 16 ==>
      IsXDigit("0123456789ABCDEF"[d]) && DigitValue("0123456789ABCDEF"[d]) == d
      && IsXDigit("0123456789abcdef"[d]) && DigitValue("0123456789abcdef"[d]) == d
  {
  }
}
