// Decimal printing of 128-bit integers with two 64-bit words.
module WideInteger {
  import opened Decimal

  const TWO_64: int := 0x1_0000_0000_0000_0000
  const TWO_127: int := 0x8000_0000_0000_0000_0000_0000_0000_0000
  const TWO_128: int := 0x1_0000_0000_0000_0000_0000_0000_0000_0000

  // Every value of this type is checked to stay below 2^64.
  type uint64 = x: nat | x < TWO_64

  type uint128 = x: nat | x < TWO_128

  type int128 = x: int | -TWO_127 <= x < TWO_127

  function Power10(n: nat): nat {
    if n == 0 then 1 else 10 * Power10(n - 1)
  }

  lemma {:induction false} PowerSum(m: nat, n: nat)
    ensures Power10(m + n) == Power10(m) * Power10(n)
  {
    if n == 0 {
    } else {
      PowerSum(m, n - 1);
      assert m + n - 1 == m + (n - 1);
    }
  }

  // 39 digits are enough.
  lemma ThirtyNineDigits()
    ensures TWO_128 <= Power10(39)
  {
    assert Power10(13) == 10_000_000_000_000;
    assert Power10(26) == 100_000_000_000_000_000_000_000_000 by {
      PowerSum(13, 13);
    }
    assert Power10(39) == 1_000_000_000_000_000_000_000_000_000_000_000_000_000 by {
      PowerSum(26, 13);
    }
  }

  // The digits of n, none for 0.
  function Digits(n: nat): string {
    if n == 0 then "" else Numeral(n)
  }

  lemma SomeDigits(n: nat)
    ensures Digits(n) == if n == 0 then "" else Numeral(n)
  {
  }

  // The last digit comes just before the digits already written.
  lemma LastDigit(n: nat, written: string)
    requires n > 0
    ensures Digits(n) + written == Digits(n / 10) + ([DigitChar(n % 10)] + written)
  {
    assert Digits(n) == Digits(n / 10) + [DigitChar(n % 10)];
  }

  // One step of the long division of high * 2^64 + low by 10.
  lemma DivideBy10(high: uint64, low: uint64)
    ensures
      var carry := 6 * (high % 10) + low % 10;
      var low' := low / 10 + high % 10 * 1844674407370955161 + carry / 10;
      && carry < 64 && low' < TWO_64
      && (high * TWO_64 + low) / 10 == high / 10 * TWO_64 + low'
      && (high * TWO_64 + low) % 10 == carry % 10
  {
    var carry := 6 * (high % 10) + low % 10;
    var low' := low / 10 + high % 10 * 1844674407370955161 + carry / 10;
    assert TWO_64 == 10 * 1844674407370955161 + 6;
    assert high % 10 * TWO_64 + low == 10 * low' + carry % 10;
    assert high * TWO_64 + low == 10 * (high / 10 * TWO_64 + low') + carry % 10;
  }

  // The number two words stand for.
  function Joined(high: uint64, low: uint64): (v: nat)
    ensures v == 0 <==> high == 0 && low == 0
  {
    high * TWO_64 + low
  }

  method SplitWords(v: uint128) returns (high: uint64, low: uint64)
    ensures Joined(high, low) == v
  {
    high, low := v / TWO_64, v % TWO_64;
  }

  // The next digit goes in front of those written, and one place less is needed.
  lemma NextDigit(value: nat, p: nat, written: string)
    requires 0 < value < Power10(p)
    ensures p > 0 && value / 10 < Power10(p - 1) && value / 10 < value
    ensures Digits(value) + written == Digits(value / 10) + ([DigitChar(value % 10)] + written)
  {
    LastDigit(value, written);
  }

  // Long division specialised for the divisor 10 and two words; nothing overflows.
  method LongDivision(high: uint64, low: uint64) returns (high': uint64, low': uint64, digit: nat)
    ensures Joined(high', low') == Joined(high, low) / 10
    ensures digit == Joined(high, low) % 10
  {
    DivideBy10(high, low);
    var highMod: uint64 := high % 10;
    high' := high / 10;
    var carry: uint64 := 6 * highMod + low % 10;
    low' := low / 10 + highMod * 1844674407370955161 + carry / 10;
    digit := carry % 10;
  }

  // One character more in front of those already written.
  method Prepend(buf: array<char>, p: nat, c: char)
    requires buf.Length == 40 && p < 39
    modifies buf
    ensures buf[p..39] == [c] + old(buf[p + 1..39])
  {
    ghost var written := buf[p + 1..39];
    buf[p] := c;
    assert buf[p + 1..39] == written;
  }

  lemma FitsBuffer(v: uint128)
    requires v != 0
    ensures v < Power10(39) && Digits(v) + "" == Numeral(v)
  {
    hide Power10, Numeral;
    ThirtyNineDigits();
  }

  // Writes the digits from the last one backwards into a 40-byte buffer.
  method PrintUint128(v: uint128) returns (out: string)
    ensures out == Numeral(v)
  {
    if v == 0 {
      return "0";
    }
    hide Numeral, Power10, Digits, Joined;
    var buf := new char[40](_ => ' ');
    var p := 40;
    var high: uint64, low: uint64 := SplitWords(v);
    FitsBuffer(v);
    p := p - 1;
    buf[p] := '\0';
    assert buf[39..39] == "";
    while high != 0 || low != 0
      invariant 0 <= p <= 39
      invariant Joined(high, low) < Power10(p)
      invariant Digits(Joined(high, low)) + buf[p..39] == Numeral(v)
      decreases Joined(high, low)
    {
      NextDigit(Joined(high, low), p, buf[p..39]);
      var digit;
      high, low, digit := LongDivision(high, low);
      p := p - 1;
      Prepend(buf, p, DigitChar(digit));
    }
    SomeDigits(0);
    out := buf[p..39];
  }

  function SignedNumeral(v: int): string {
    if v < 0 then "-" + Numeral(-v) else Numeral(v)
  }

  // Two's complement negation of the bit pattern gives the magnitude, even of the minimum.
  method PrintInt128(v: int128) returns (out: string)
    ensures out == SignedNumeral(v)
  {
    hide Numeral;
    out := "";
    var uv: uint128 := v % TWO_128;
    if v < 0 {
      out := "-";
      uv := (TWO_128 - uv) % TWO_128;
      assert uv + v == 0;
    }
    var digits := PrintUint128(uv);
    out := out + digits;
  }

  // The widths in decimal.
  lemma Widths()
    ensures TWO_64 == 18446744073709551616
    ensures TWO_127 == 170141183460469231731687303715884105728 && TWO_128 == TWO_64 * TWO_64 == 2 * TWO_127
  {
  }

  // A minus sign before the magnitude of a negative number, and nothing else.
  lemma Signs(v: int)
    ensures v >= 0 ==> SignedNumeral(v) == Numeral(v)
    ensures v < 0 ==> SignedNumeral(v) == "-" + Numeral(-v)
  {
  }
}
