// UTF-8: the encoding of section 3 of RFC 3629, the code point encoder, and the
// validator that decides which byte strings are encodings of Unicode text.
module Utf8 {
  import Hexadecimal

  type Byte = b: nat | b < 256

  // ---------------------------------------------------------------- the encoding

  const MAX_CODE_POINT_1: nat := 0x7F
  const MAX_CODE_POINT_2: nat := 0x7FF
  const MAX_CODE_POINT_3: nat := 0xFFFF
  const MAX_CODE_POINT_4: nat := 0x1FFFFF

  // Code points that fit into four bytes, whether or not Unicode assigns them.
  type CodePoint = c: nat | c <= MAX_CODE_POINT_4

  predicate IsScalar(c: nat) {
    c <= 0xD7FF || 0xE000 <= c <= 0x10FFFF
  }

  function Encode(c: CodePoint): (s: seq<Byte>)
    ensures 1 <= |s| <= 4
  {
    if c <= MAX_CODE_POINT_1 then [c]
    else if c <= MAX_CODE_POINT_2 then [0xC0 + c / 64, 0x80 + c % 64]
    else if c <= MAX_CODE_POINT_3 then [0xE0 + c / 64 / 64, 0x80 + c / 64 % 64, 0x80 + c % 64]
    else [0xF0 + c / 64 / 64 / 64, 0x80 + c / 64 / 64 % 64, 0x80 + c / 64 % 64, 0x80 + c % 64]
  }

  function EncodeAll(cs: seq<CodePoint>): seq<Byte> {
    if cs == [] then [] else Encode(cs[0]) + EncodeAll(cs[1..])
  }

  ghost predicate AllScalars(cs: seq<CodePoint>) {
    forall k :: 0 <= k < |cs| ==> IsScalar(cs[k])
  }

  // The concatenation of encodings of Unicode scalar values.
  ghost predicate IsUtf8(s: seq<Byte>) {
    exists cs: seq<CodePoint> :: AllScalars(cs) && EncodeAll(cs) == s
  }

  // ---------------------------------------------------------------- decoding one character

  predicate IsTrailByte(t: Byte) { 0x80 <= t <= 0xBF }

  // The length announced by a lead byte, 0 for a byte that cannot lead.
  function LeadLength(lead: Byte): nat {
    if lead <= 0x7F then 1
    else if lead < 0xC0 then 0
    else if lead <= 0xDF then 2
    else if lead <= 0xEF then 3
    else if lead <= 0xF7 then 4
    else 0
  }

  // The payload of a byte whose marker bits are `marker`.
  function Payload(b: Byte, marker: int): int { b - marker }

  // The bits of the first character, given enough bytes.
  function Bits(s: seq<Byte>): int
    requires s != [] && |s| >= LeadLength(s[0]) >= 1
  {
    match LeadLength(s[0])
    case 1 => s[0]
    case 2 => Payload(s[0], 0xC0) * 64 + Payload(s[1], 0x80)
    case 3 => (Payload(s[0], 0xE0) * 64 + Payload(s[1], 0x80)) * 64 + Payload(s[2], 0x80)
    case _ => ((Payload(s[0], 0xF0) * 64 + Payload(s[1], 0x80)) * 64 + Payload(s[2], 0x80)) * 64 + Payload(s[3], 0x80)
  }

  // Encoding is undone by reading off the bits, whatever follows.
  lemma EncodeReadsBack(c: CodePoint, rest: seq<Byte>)
    ensures var s := Encode(c) + rest;
      LeadLength(s[0]) == |Encode(c)| && Bits(s) == c
  {
  }

  // Hence no two sequences of code points share an encoding.
  lemma {:induction false} EncodeAllInjective(a: seq<CodePoint>, b: seq<CodePoint>)
    requires EncodeAll(a) == EncodeAll(b)
    ensures a == b
  {
    if a == [] || b == [] {
      return;
    }
    EncodeReadsBack(a[0], EncodeAll(a[1..]));
    EncodeReadsBack(b[0], EncodeAll(b[1..]));
    var n := |Encode(a[0])|;
    assert EncodeAll(a)[n..] == EncodeAll(a[1..]) && EncodeAll(b)[n..] == EncodeAll(b[1..]);
    EncodeAllInjective(a[1..], b[1..]);
    assert a == [a[0]] + a[1..] && b == [b[0]] + b[1..];
  }

  // ---------------------------------------------------------------- the validator

  // The length of the valid character at the head of s, 0 if there is none.
  function HeadLength(s: seq<Byte>): (n: nat)
    requires s != []
    ensures n <= |s|
  {
    var lead := s[0];
    if lead <= 0x7F then 1
    else if lead < 0xC2 then 0
    else if lead <= 0xDF && 2 <= |s| && IsTrailByte(s[1]) then 2
    else if 0xE0 <= lead <= 0xEF && 3 <= |s| && IsTrailByte(s[1]) && IsTrailByte(s[2])
            && (lead != 0xE0 || s[1] >= 0xA0) && (lead != 0xED || s[1] < 0xA0) then 3
    else if 0xF0 <= lead <= 0xF4 && 4 <= |s| && IsTrailByte(s[1]) && IsTrailByte(s[2]) && IsTrailByte(s[3])
            && (lead != 0xF0 || s[1] >= 0x90) && (lead != 0xF4 || s[1] < 0x90) then 4
    else 0
  }

  lemma Sextet(high: nat, low: nat)
    requires low < 64
    ensures (high * 64 + low) / 64 == high && (high * 64 + low) % 64 == low
  {
  }

  // The head test passes exactly for the encoding of a scalar value ...
  lemma HeadIsEncoding(s: seq<Byte>)
    requires s != [] && HeadLength(s) > 0
    ensures LeadLength(s[0]) == HeadLength(s)
    ensures 0 <= Bits(s) <= MAX_CODE_POINT_4 && IsScalar(Bits(s)) && Encode(Bits(s)) == s[..HeadLength(s)]
  {
    if HeadLength(s) == 2 {
      Sextet(Payload(s[0], 0xC0), Payload(s[1], 0x80));
    } else if HeadLength(s) == 3 {
      var high: nat := Payload(s[0], 0xE0) * 64 + Payload(s[1], 0x80);
      Sextet(Payload(s[0], 0xE0), Payload(s[1], 0x80));
      Sextet(high, Payload(s[2], 0x80));
      assert Bits(s) == high * 64 + Payload(s[2], 0x80);
    } else if HeadLength(s) == 4 {
      var high: nat := Payload(s[0], 0xF0) * 64 + Payload(s[1], 0x80);
      var higher: nat := high * 64 + Payload(s[2], 0x80);
      Sextet(Payload(s[0], 0xF0), Payload(s[1], 0x80));
      Sextet(high, Payload(s[2], 0x80));
      Sextet(higher, Payload(s[3], 0x80));
      assert Bits(s) == higher * 64 + Payload(s[3], 0x80);
    }
  }

  // ... and for every one.
  lemma EncodingPasses(c: CodePoint, rest: seq<Byte>)
    ensures HeadLength(Encode(c) + rest) == if IsScalar(c) then |Encode(c)| else 0
  {
  }

  lemma PeelHead(s: seq<Byte>)
    requires s != []
    ensures IsUtf8(s) <==> HeadLength(s) > 0 && IsUtf8(s[HeadLength(s)..])
  {
    if HeadLength(s) > 0 {
      HeadIsEncoding(s);
      var n, c := HeadLength(s), Bits(s);
      if cs: seq<CodePoint> :| AllScalars(cs) && EncodeAll(cs) == s[n..] {
        assert ([c] + cs)[1..] == cs;
        assert EncodeAll([c] + cs) == s;
      }
    }
    if cs: seq<CodePoint> :| AllScalars(cs) && EncodeAll(cs) == s {
      EncodingPasses(cs[0], EncodeAll(cs[1..]));
      assert s[HeadLength(s)..] == EncodeAll(cs[1..]);
    }
  }

  method IsValidUTF8(s: seq<Byte>) returns (valid: bool)
    ensures valid <==> IsUtf8(s)
  {
    var i := 0;
    assert s[0..] == s;
    while i < |s|
      invariant i <= |s|
      invariant IsUtf8(s) <==> IsUtf8(s[i..])
      decreases |s| - i
    {
      PeelHead(s[i..]);
      ghost var rest := s[i..];
      var lead := s[i];
      i := i + 1;
      if lead <= 0x7F {
        assert rest[1..] == s[i..];
        continue;
      }
      if lead < 0xC2 {
        return false;
      } else if lead <= 0xDF && i + 1 <= |s| && IsTrailByte(s[i]) {
        i := i + 1;
        assert rest[2..] == s[i..];
      } else if 0xE0 <= lead <= 0xEF && i + 2 <= |s| && IsTrailByte(s[i]) && IsTrailByte(s[i + 1])
                && (lead != 0xE0 || s[i] >= 0xA0) && (lead != 0xED || s[i] < 0xA0) {
        i := i + 2;
        assert rest[3..] == s[i..];
      } else if 0xF0 <= lead <= 0xF4 && i + 3 <= |s| && IsTrailByte(s[i]) && IsTrailByte(s[i + 1])
                && IsTrailByte(s[i + 2]) && (lead != 0xF0 || s[i] >= 0x90) && (lead != 0xF4 || s[i] < 0x90) {
        i := i + 3;
        assert rest[4..] == s[i..];
      } else {
        return false;
      }
    }
    assert EncodeAll([]) == s[|s|..];
    return true;
  }

  // ---------------------------------------------------------------- the encoder

  function Ascii(text: string): seq<Byte>
    requires forall k :: 0 <= k < |text| ==> text[k] < '\U{80}'
  {
    seq(|text|, k requires 0 <= k < |text| => text[k] as nat)
  }

  function InvalidText(c: nat): seq<Byte> {
    Hexadecimal.NumeralReadsBack(c);
    Ascii("(Invalid Unicode 0x" + Hexadecimal.Numeral(c) + ")")
  }

  // What CodePointToUtf8 yields: nothing for U+0, since the result is read as a C string.
  function Utf8Text(c: nat): seq<Byte> {
    if c > MAX_CODE_POINT_4 then InvalidText(c) else if c == 0 then [] else Encode(c)
  }

  function PowerOf2(n: nat): (p: nat)
    ensures p > 0
  {
    if n == 0 then 1 else 2 * PowerOf2(n - 1)
  }

  // Takes the n lowest bits off a bit pattern: bits & (2^n - 1), leaving bits >> n.
  // Put back together, the two parts are the pattern.
  method ChopLowBits(bits: nat, n: nat) returns (low: nat, rest: nat)
    ensures bits == rest * PowerOf2(n) + low && low < PowerOf2(n)
  {
    hide PowerOf2;
    var unit := PowerOf2(n);
    low, rest := bits % unit, bits / unit;
  }

  // The bytes of a buffer up to its NUL terminator.
  function CBytes(s: seq<Byte>): seq<Byte> {
    if s == [] || s[0] == 0 then [] else [s[0]] + CBytes(s[1..])
  }

  lemma {:induction false} CBytesStopsAt(s: seq<Byte>, n: nat)
    requires n < |s| && s[n] == 0 && forall k :: 0 <= k < n ==> s[k] != 0
    ensures CBytes(s) == s[..n]
  {
    if n == 0 {
    } else {
      CBytesStopsAt(s[1..], n - 1);
      assert s[..n] == [s[0]] + s[1..][..n - 1];
    }
  }

  lemma EncodeHasNoZero(c: CodePoint)
    ensures c > 0 ==> forall k :: 0 <= k < |Encode(c)| ==> Encode(c)[k] != 0
    ensures c == 0 ==> Encode(c) == [0]
  {
  }

  // The encodings of each length, from their groups of six bits.
  lemma Encode1(c: nat)
    requires c <= MAX_CODE_POINT_1
    ensures Encode(c) == [c]
  {
  }

  lemma Encode2(a: nat, b: nat)
    requires b < 64 && MAX_CODE_POINT_1 < a * 64 + b <= MAX_CODE_POINT_2
    ensures Encode(a * 64 + b) == [0xC0 + a, 0x80 + b]
  {
    Sextet(a, b);
  }

  lemma Encode3(a: nat, b: nat, c: nat)
    requires b < 64 && c < 64 && MAX_CODE_POINT_2 < (a * 64 + b) * 64 + c <= MAX_CODE_POINT_3
    ensures Encode((a * 64 + b) * 64 + c) == [0xE0 + a, 0x80 + b, 0x80 + c]
  {
    Sextet(a, b);
    Sextet(a * 64 + b, c);
  }

  lemma Encode4(a: nat, b: nat, c: nat, d: nat)
    requires b < 64 && c < 64 && d < 64 && MAX_CODE_POINT_3 < ((a * 64 + b) * 64 + c) * 64 + d <= MAX_CODE_POINT_4
    ensures Encode(((a * 64 + b) * 64 + c) * 64 + d) == [0xF0 + a, 0x80 + b, 0x80 + c, 0x80 + d]
  {
    Sextet(a, b);
    Sextet(a * 64 + b, c);
    Sextet((a * 64 + b) * 64 + c, d);
  }

  // A buffer filled with an encoding and a NUL, read as a C string.
  lemma BufferHolds(s: seq<Byte>, c: CodePoint)
    requires |Encode(c)| < |s| && s[|Encode(c)|] == 0
    requires forall k :: 0 <= k < |Encode(c)| ==> s[k] == Encode(c)[k]
    ensures CBytes(s) == Utf8Text(c)
  {
    hide Encode;
    var n := |Encode(c)|;
    EncodeHasNoZero(c);
    CBytesStopsAt(s, if c > 0 then n else 0);
    assert s[..n] == Encode(c);
  }

  // Takes six bits off and stores them as a trailing byte, 10xxxxxx.
  method PutTrailByte(str: array<Byte>, k: nat, bits: nat) returns (rest: nat)
    requires k < str.Length
    modifies str
    ensures forall m :: 0 <= m < str.Length && m != k ==> str[m] == old(str[m])
    ensures 0x80 <= str[k] < 0xC0 && bits == rest * 64 + (str[k] as int - 0x80)
  {
    assert PowerOf2(6) == 64;
    hide PowerOf2;
    var low;
    low, rest := ChopLowBits(bits, 6);
    str[k] := 0x80 + low;
  }

  // Fills a five-byte buffer from the back, six bits at a time.  The markers 0x80,
  // 0xC0, 0xE0 and 0xF0 have no bit in common with what they are or-ed with.
  method CodePointToUtf8(codePoint: nat) returns (result: seq<Byte>)
    ensures result == Utf8Text(codePoint)
  {
    if codePoint > MAX_CODE_POINT_4 {
      return InvalidText(codePoint);
    }
    var str := new Byte[5](_ => 0);
    var bits: nat := codePoint;
    hide Encode;
    if bits <= MAX_CODE_POINT_1 {
      Encode1(bits);
      str[1] := 0;
      str[0] := bits;                      // 0xxxxxxx
    } else if bits <= MAX_CODE_POINT_2 {
      str[2] := 0;
      bits := PutTrailByte(str, 1, bits);
      Encode2(bits, str[1] as int - 0x80);
      str[0] := 0xC0 + bits;               // 110xxxxx
    } else if bits <= MAX_CODE_POINT_3 {
      str[3] := 0;
      bits := PutTrailByte(str, 2, bits);
      bits := PutTrailByte(str, 1, bits);
      Encode3(bits, str[1] as int - 0x80, str[2] as int - 0x80);
      str[0] := 0xE0 + bits;               // 1110xxxx
    } else {
      str[4] := 0;
      bits := PutTrailByte(str, 3, bits);
      bits := PutTrailByte(str, 2, bits);
      bits := PutTrailByte(str, 1, bits);
      Encode4(bits, str[1] as int - 0x80, str[2] as int - 0x80, str[3] as int - 0x80);
      str[0] := 0xF0 + bits;               // 11110xxx
    }
    BufferHolds(str[..], codePoint);
    result := CBytes(str[..]);
  }

  // The result is valid UTF-8 exactly for scalar values (and is then their encoding).
  lemma TextIsUtf8IffScalar(c: CodePoint)
    requires c > 0
    ensures IsUtf8(Utf8Text(c)) <==> IsScalar(c)
  {
    assert [c][1..] == [] && Encode(c) + [] == Encode(c);
    assert EncodeAll([c]) == Encode(c);
    if cs: seq<CodePoint> :| AllScalars(cs) && EncodeAll(cs) == Encode(c) {
      EncodeAllInjective(cs, [c]);
      assert IsScalar(cs[0]);
    }
    if IsScalar(c) {
      assert AllScalars([c]);
    }
  }

  // The documentation promises the "Invalid Unicode" text for everything above
  // U+10FFFF; the encoder gives it exactly above U+1FFFFF.
  lemma InvalidTextOnlyAbove21Bits(c: nat)
    ensures Utf8Text(c) == InvalidText(c) <==> c > MAX_CODE_POINT_4
  {
    if c <= MAX_CODE_POINT_4 {
      var t := InvalidText(c);
      assert |t| == |"(Invalid Unicode 0x" + Hexadecimal.Numeral(c) + ")"| > 4;
    }
  }

  // The first code point above U+10FFFF gets four bytes, not the error text.
  lemma NoErrorTextExample()
    ensures Utf8Text(0x110000) == [0xF4, 0x90, 0x80, 0x80]
    ensures Utf8Text(0x110000) != InvalidText(0x110000) && !IsUtf8(Utf8Text(0x110000))
  {
    InvalidTextOnlyAbove21Bits(0x110000);
    TextIsUtf8IffScalar(0x110000);
  }

  // ---------------------------------------------------------------- in numbers

  // The four forms: how many bytes, which markers, and the bits they carry.
  lemma EncodingInBits(c: CodePoint)
    ensures
      var s := Encode(c);
      && (c < 0x80 ==> s == [c])
      && (0x80 <= c < 0x800 ==>
            && |s| == 2 && 0xC0 <= s[0] < 0xE0 && 0x80 <= s[1] < 0xC0
            && c == (s[0] as int - 0xC0) * 64 + (s[1] as int - 0x80))
      && (0x800 <= c < 0x10000 ==>
            && |s| == 3 && 0xE0 <= s[0] < 0xF0 && 0x80 <= s[1] < 0xC0 && 0x80 <= s[2] < 0xC0
            && c == (s[0] as int - 0xE0) * 4096 + (s[1] as int - 0x80) * 64 + (s[2] as int - 0x80))
      && (0x10000 <= c ==>
            && |s| == 4 && 0xF0 <= s[0] < 0xF8 && 0x80 <= s[1] < 0xC0 && 0x80 <= s[2] < 0xC0 && 0x80 <= s[3] < 0xC0
            && c == (s[0] as int - 0xF0) * 262144 + (s[1] as int - 0x80) * 4096 + (s[2] as int - 0x80) * 64 + (s[3] as int - 0x80))
      && c < 0x200000
  {
  }

  // What the validator accepts at the head of a string: table 3-7 of the Unicode standard.
  lemma WellFormedTable(s: seq<Byte>)
    requires s != []
    ensures HeadLength(s) == 1 <==> s[0] <= 0x7F
    ensures HeadLength(s) == 2 <==> |s| >= 2 && 0xC2 <= s[0] <= 0xDF && 0x80 <= s[1] <= 0xBF
    ensures HeadLength(s) == 3 <==>
      && |s| >= 3 && 0x80 <= s[2] <= 0xBF
      && (|| (s[0] == 0xE0 && 0xA0 <= s[1] <= 0xBF)
          || (0xE1 <= s[0] <= 0xEC && 0x80 <= s[1] <= 0xBF)
          || (s[0] == 0xED && 0x80 <= s[1] <= 0x9F)
          || (0xEE <= s[0] <= 0xEF && 0x80 <= s[1] <= 0xBF))
    ensures HeadLength(s) == 4 <==>
      && |s| >= 4 && 0x80 <= s[2] <= 0xBF && 0x80 <= s[3] <= 0xBF
      && (|| (s[0] == 0xF0 && 0x90 <= s[1] <= 0xBF)
          || (0xF1 <= s[0] <= 0xF3 && 0x80 <= s[1] <= 0xBF)
          || (s[0] == 0xF4 && 0x80 <= s[1] <= 0x8F))
    ensures HeadLength(s) <= 4
  {
  }

  // The error text, and what becomes of NUL.
  lemma ErrorText(c: nat)
    ensures c >= 0x200000 ==>
      && |Utf8Text(c)| == |Hexadecimal.Numeral(c)| + 20
      && (forall k :: 0 <= k < 19 ==> Utf8Text(c)[k] == "(Invalid Unicode 0x"[k] as int)
      && (forall k :: 0 <= k < |Hexadecimal.Numeral(c)| ==> Utf8Text(c)[19 + k] == Hexadecimal.Numeral(c)[k] as int)
      && Utf8Text(c)[|Utf8Text(c)| - 1] == ')' as int
    ensures Utf8Text(0) == []
  {
    Hexadecimal.NumeralReadsBack(c);
    var text := "(Invalid Unicode 0x" + Hexadecimal.Numeral(c) + ")";
    assert forall k :: 0 <= k < |Hexadecimal.Numeral(c)| ==> text[19 + k] == Hexadecimal.Numeral(c)[k];
  }
}
