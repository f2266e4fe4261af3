// Wide strings to UTF-8: UTF-16 surrogate pairs (section 2 of RFC 2781) when
// wchar_t has 16 bits, one code point per unit otherwise.
module WideString {
  import opened Utf8

  // ---------------------------------------------------------------- UTF-16

  function Encode16(c: CodePoint): seq<nat>
    requires c <= 0x10FFFF
  {
    if c < 0x10000 then [c] else [0xD800 + (c - 0x10000) / 1024, 0xDC00 + (c - 0x10000) % 1024]
  }

  ghost predicate Assigned(cs: seq<CodePoint>) {
    forall k :: 0 <= k < |cs| ==> cs[k] <= 0x10FFFF
  }

  ghost function EncodeAll16(cs: seq<CodePoint>): seq<nat>
    requires Assigned(cs)
  {
    if cs == [] then [] else Encode16(cs[0]) + EncodeAll16(cs[1..])
  }

  // Well-formed UTF-16: the encoding of Unicode scalar values.
  ghost predicate IsUtf16(units: seq<nat>) {
    exists cs: seq<CodePoint> :: AllScalars(cs) && EncodeAll16(cs) == units
  }

  // ---------------------------------------------------------------- the converter

  // (x & 0xFC00) == 0xD800 and 0xDC00 respectively.
  predicate IsUtf16SurrogatePair(first: nat, second: nat, wide16: bool) {
    wide16 && first % 65536 / 1024 == 0xD800 / 1024 && second % 65536 / 1024 == 0xDC00 / 1024
  }

  // (((first & mask) << 10) | (second & mask)) + 0x10000
  function CreateCodePointFromUtf16SurrogatePair(first: nat, second: nat, wide16: bool): nat {
    if wide16 then first % 1024 * 1024 + second % 1024 + 0x10000 else first
  }

  // The code points the converter sees, up to the first NUL.
  function CodePoints(units: seq<nat>, wide16: bool): seq<nat> {
    if units == [] || units[0] == 0 then []
    else if |units| > 1 && IsUtf16SurrogatePair(units[0], units[1], wide16) then
      [CreateCodePointFromUtf16SurrogatePair(units[0], units[1], wide16)] + CodePoints(units[2..], wide16)
    else
      [units[0]] + CodePoints(units[1..], wide16)
  }

  function TextOf(cs: seq<nat>): seq<Byte> {
    if cs == [] then [] else Utf8Text(cs[0]) + TextOf(cs[1..])
  }

  // wcslen: the units before the first NUL.
  function Length(units: seq<nat>): (n: nat)
    ensures n <= |units| && (forall k :: 0 <= k < n ==> units[k] != 0) && (n < |units| ==> units[n] == 0)
  {
    if units == [] || units[0] == 0 then 0 else 1 + Length(units[1..])
  }

  // The units looked at: all of them for -1 or a limit beyond the end, none for
  // another negative limit.
  function Limited(str: seq<nat>, numChars: int): seq<nat> {
    if numChars == -1 || numChars > |str| then str else if numChars < 0 then [] else str[..numChars]
  }

  // The i-th unit of a NUL-terminated string.
  function UnitAt(str: seq<nat>, i: nat): nat
    requires i <= |str|
  {
    if i < |str| then str[i] else 0
  }

  // One step of the conversion.
  lemma ConvertStep(units: seq<nat>, wide16: bool)
    ensures units == [] || units[0] == 0 ==> TextOf(CodePoints(units, wide16)) == []
    ensures units != [] && units[0] != 0 ==>
      if |units| > 1 && IsUtf16SurrogatePair(units[0], units[1], wide16) then
        TextOf(CodePoints(units, wide16)) ==
        Utf8Text(CreateCodePointFromUtf16SurrogatePair(units[0], units[1], wide16)) + TextOf(CodePoints(units[2..], wide16))
      else
        TextOf(CodePoints(units, wide16)) == Utf8Text(units[0]) + TextOf(CodePoints(units[1..], wide16))
  {
    var cs := CodePoints(units, wide16);
    if units != [] && units[0] != 0 {
      var n := if |units| > 1 && IsUtf16SurrogatePair(units[0], units[1], wide16) then 2 else 1;
      assert cs[1..] == CodePoints(units[n..], wide16);
    }
  }

  lemma NulIsNoSurrogate(first: nat, wide16: bool)
    ensures !IsUtf16SurrogatePair(first, 0, wide16)
  {
  }

  lemma {:induction false} StopsAtNul(units: seq<nat>, n: nat, wide16: bool)
    requires n <= |units| && (n < |units| ==> units[n] == 0) && forall k :: 0 <= k < n ==> units[k] != 0
    ensures CodePoints(units, wide16) == CodePoints(units[..n], wide16)
    decreases n
  {
    if n == 0 {
      assert units[..0] == [];
    } else {
      assert units[..n][1..] == units[1..][..n - 1];
      StopsAtNul(units[1..], n - 1, wide16);
      if n > 1 {
        assert units[..n][2..] == units[2..][..n - 2];
        StopsAtNul(units[2..], n - 2, wide16);
      }
    }
  }

  lemma Regroup(a: seq<Byte>, b: seq<Byte>, c: seq<Byte>)
    ensures (a + b) + c == a + (b + c)
  {
  }

  // The stretch that is read holds the text of the limited string.
  lemma LimitedText(str: seq<nat>, numChars: int, n: nat, wide16: bool)
    requires n == if numChars == -1 then Length(str) else numChars
    ensures TextOf(CodePoints(str[..if n < |str| then n else |str|], wide16)) ==
            TextOf(CodePoints(Limited(str, numChars), wide16))
  {
    hide CodePoints, TextOf;
    assert str[..|str|] == str;
    if numChars == -1 {
      StopsAtNul(str, n, wide16);
    }
  }

  // str holds the units before the terminating NUL; numChars may be -1 for all of
  // them, or limit how many are looked at.
  method WideStringToUtf8(str: seq<nat>, numChars: int, wide16: bool) returns (result: seq<Byte>)
    ensures result == TextOf(CodePoints(Limited(str, numChars), wide16))
  {
    hide CodePoints, TextOf, IsUtf16SurrogatePair, CreateCodePointFromUtf16SurrogatePair, Utf8Text;
    result := [];
    var n := if numChars == -1 then Length(str) else numChars;
    if n < 0 {
      ConvertStep([], wide16);
      return;
    }
    ghost var end := if n < |str| then n else |str|;
    ghost var units := str[..end];
    var i := 0;
    assert str[0..end] == units;
    while i < n
      invariant 0 <= i <= end
      invariant result + TextOf(CodePoints(str[i..end], wide16)) == TextOf(CodePoints(units, wide16))
    {
      ghost var rest := str[i..end];
      ConvertStep(rest, wide16);
      NulIsNoSurrogate(UnitAt(str, i), wide16);
      var codePoint;
      if UnitAt(str, i) == 0 {
        break;
      } else if i + 1 < n && IsUtf16SurrogatePair(UnitAt(str, i), UnitAt(str, i + 1), wide16) {
        codePoint := CreateCodePointFromUtf16SurrogatePair(UnitAt(str, i), UnitAt(str, i + 1), wide16);
        i := i + 1;
        assert rest[2..] == str[i + 1..end];
      } else {
        codePoint := UnitAt(str, i);
        assert rest[1..] == str[i + 1..end];
      }
      var text := CodePointToUtf8(codePoint);
      Regroup(result, text, TextOf(CodePoints(str[i + 1..end], wide16)));
      result := result + text;
      i := i + 1;
    }
    ConvertStep(str[i..end], wide16);
    LimitedText(str, numChars, n, wide16);
  }

  // ---------------------------------------------------------------- what it means

  // A run of 16-bit units without NUL.
  ghost predicate NonZeroUnits16(units: seq<nat>) {
    forall k :: 0 <= k < |units| ==> 0 < units[k] < 65536
  }

  lemma PairReadsBack(first: nat, second: nat)
    requires first < 65536 && second < 65536
    ensures IsUtf16SurrogatePair(first, second, true) ==>
      var c := CreateCodePointFromUtf16SurrogatePair(first, second, true);
      0x10000 <= c <= 0x10FFFF && Encode16(c) == [first, second]
  {
  }

  // Reading code points and writing UTF-16 are inverse: nothing is lost, not even
  // in ill-formed input.
  lemma {:induction false} CodePointsReadBack(units: seq<nat>)
    requires NonZeroUnits16(units)
    ensures
      var cs := CodePoints(units, true);
      && (forall k :: 0 <= k < |cs| ==> 0 < cs[k] <= 0x10FFFF)
      && EncodeAll16(cs) == units
    decreases |units|
  {
    if units == [] {
    } else {
      var pair := |units| > 1 && IsUtf16SurrogatePair(units[0], units[1], true);
      var n := if pair then 2 else 1;
      CodePointsReadBack(units[n..]);
      var cs := CodePoints(units, true);
      PairReadsBack(units[0], if pair then units[1] else 0xDC00);
      assert cs[1..] == CodePoints(units[n..], true);
      assert Encode16(cs[0]) == units[..n];
      assert units == units[..n] + units[n..];
    }
  }

  // A surrogate pair stands for its character, a single unit is no surrogate.
  lemma SurrogatesReadBack(c: CodePoint)
    requires IsScalar(c)
    ensures var units := Encode16(c);
      && (|units| == 2 ==> IsUtf16SurrogatePair(units[0], units[1], true)
                           && CreateCodePointFromUtf16SurrogatePair(units[0], units[1], true) == c)
      && (|units| == 1 ==> units[0] == c && forall other :: !IsUtf16SurrogatePair(c, other, true))
      && 1 <= |units| <= 2 && (c > 0 ==> forall k :: 0 <= k < |units| ==> 0 < units[k] < 65536)
  {
  }

  lemma {:induction false} Encode16ReadsBack(cs: seq<CodePoint>)
    requires AllScalars(cs) && forall k :: 0 <= k < |cs| ==> cs[k] > 0
    ensures NonZeroUnits16(EncodeAll16(cs)) && CodePoints(EncodeAll16(cs), true) == cs
  {
    hide IsUtf16SurrogatePair, CreateCodePointFromUtf16SurrogatePair, Encode16;
    if cs == [] {
    } else {
      SurrogatesReadBack(cs[0]);
      Encode16ReadsBack(cs[1..]);
      var units, n := EncodeAll16(cs), |Encode16(cs[0])|;
      assert units[n..] == EncodeAll16(cs[1..]);
      assert units == Encode16(cs[0]) + units[n..];
      assert cs == [cs[0]] + cs[1..];
    }
  }

  lemma {:induction false} TextIsEncoding(cs: seq<CodePoint>)
    requires forall k :: 0 <= k < |cs| ==> cs[k] > 0
    ensures TextOf(cs) == EncodeAll(cs)
  {
    if cs == [] {
    } else {
      TextIsEncoding(cs[1..]);
    }
  }

  // Well-formed UTF-16 becomes the UTF-8 of the same characters.
  lemma WellFormedBecomesUtf8(cs: seq<CodePoint>)
    requires AllScalars(cs) && forall k :: 0 <= k < |cs| ==> cs[k] > 0
    ensures TextOf(CodePoints(EncodeAll16(cs), true)) == EncodeAll(cs)
  {
    Encode16ReadsBack(cs);
    TextIsEncoding(cs);
  }

  lemma {:induction false} NoNulPoint(cs: seq<CodePoint>)
    requires Assigned(cs) && forall k :: 0 <= k < |EncodeAll16(cs)| ==> EncodeAll16(cs)[k] > 0
    ensures forall k :: 0 <= k < |cs| ==> cs[k] > 0
  {
    if cs == [] {
    } else {
      var units, n := EncodeAll16(cs), |Encode16(cs[0])|;
      assert units[0] == Encode16(cs[0])[0];
      assert units[n..] == EncodeAll16(cs[1..]);
      NoNulPoint(cs[1..]);
    }
  }

  // The output is valid UTF-8 if and only if the input was well-formed UTF-16.
  lemma OutputValidIffInputWellFormed(units: seq<nat>)
    requires NonZeroUnits16(units)
    ensures IsUtf8(TextOf(CodePoints(units, true))) <==> IsUtf16(units)
  {
    hide CodePoints, TextOf, EncodeAll, EncodeAll16;
    CodePointsReadBack(units);
    var points: seq<CodePoint> := CodePoints(units, true);
    TextIsEncoding(points);
    if cs: seq<CodePoint> :| AllScalars(cs) && EncodeAll(cs) == EncodeAll(points) {
      EncodeAllInjective(cs, points);
    }
    if cs: seq<CodePoint> :| AllScalars(cs) && EncodeAll16(cs) == units {
      NoNulPoint(cs);
      Encode16ReadsBack(cs);
    }
  }

  // ---------------------------------------------------------------- in numbers

  // Which 16-bit units form a pair, and what for.
  lemma SurrogatesInNumbers(first: nat, second: nat, wide16: bool)
    requires first < 65536 && second < 65536
    ensures IsUtf16SurrogatePair(first, second, wide16) <==>
      wide16 && 0xD800 <= first <= 0xDBFF && 0xDC00 <= second <= 0xDFFF
    ensures IsUtf16SurrogatePair(first, second, wide16) ==>
      CreateCodePointFromUtf16SurrogatePair(first, second, wide16) ==
      0x10000 + (first - 0xD800) * 0x400 + (second - 0xDC00)
  {
  }

  // UTF-16 by its code units.
  lemma Encode16InNumbers(c: CodePoint)
    requires c <= 0x10FFFF
    ensures
      var units := Encode16(c);
      && (c < 0x10000 ==> units == [c])
      && (c >= 0x10000 ==>
            && |units| == 2 && 0xD800 <= units[0] <= 0xDBFF && 0xDC00 <= units[1] <= 0xDFFF
            && c == 0x10000 + (units[0] - 0xD800) * 0x400 + (units[1] - 0xDC00))
  {
  }

  // The limit: -1 for the whole string, otherwise at most so many units.
  lemma LimitMeans(str: seq<nat>, n: nat)
    ensures Limited(str, -1) == str && Limited(str, |str| + n) == str && Limited(str, -2 - n) == []
    ensures n <= |str| ==> Limited(str, n) == str[..n]
  {
  }
}
