// Printing character sequences as C++ string literals, and a lexer that reads
// such literals back (sections 5.13.3 and 5.13.5 of ISO C++17).
module LiteralPrinter {
  import Hexadecimal
  import opened Prelude

  // ---------------------------------------------------------------- the printer

  datatype CharFormat = AsIs | HexEscape | SpecialEscape

  predicate IsPrintableAscii(c: nat) { 0x20 <= c <= 0x7E }

  // Characters are code units; the text printed is a string.
  function CharLiteral(c: nat): (string, CharFormat) {
    match c
    case 0 => ("\\0", SpecialEscape)
    case 39 => ("\\'", SpecialEscape)
    case 92 => ("\\\\", SpecialEscape)
    case 7 => ("\\a", SpecialEscape)
    case 8 => ("\\b", SpecialEscape)
    case 12 => ("\\f", SpecialEscape)
    case 10 => ("\\n", SpecialEscape)
    case 13 => ("\\r", SpecialEscape)
    case 9 => ("\\t", SpecialEscape)
    case 11 => ("\\v", SpecialEscape)
    case _ =>
      if IsPrintableAscii(c) then ([c as char], AsIs) else ("\\x" + Hexadecimal.Numeral(c), HexEscape)
  }

  function StringLiteralChar(c: nat): (string, CharFormat) {
    match c
    case 39 => ("'", AsIs)
    case 34 => ("\\\"", SpecialEscape)
    case _ => CharLiteral(c)
  }

  predicate IsXDigitCode(c: nat) {
    0x30 <= c <= 0x39 || 0x41 <= c <= 0x46 || 0x61 <= c <= 0x66
  }

  // Ends the literal and begins another one with the same prefix.
  function Break(prefix: string): string { "\" " + prefix + "\"" }

  // The text from one character on, up to and including the closing quote.
  function Body(cs: seq<nat>, previousHex: bool, prefix: string): string {
    if cs == [] then "\""
    else
      var (text, format) := StringLiteralChar(cs[0]);
      (if previousHex && IsXDigitCode(cs[0]) then Break(prefix) else "")
      + (text + Body(cs[1..], format == HexEscape, prefix))
  }

  function Printed(cs: seq<nat>, prefix: string): string {
    prefix + "\"" + Body(cs, false, prefix)
  }

  // The encoding prefix of each character type.
  predicate IsPrefix(prefix: string) {
    prefix == "" || prefix == "u8" || prefix == "u" || prefix == "U" || prefix == "L"
  }

  // One step of the printer, at position i.
  lemma BodyAt(cs: seq<nat>, i: nat, previousHex: bool, prefix: string)
    requires i < |cs|
    ensures
      var (text, format) := StringLiteralChar(cs[i]);
      Body(cs[i..], previousHex, prefix) ==
      (if previousHex && IsXDigitCode(cs[i]) then Break(prefix) else "")
      + (text + Body(cs[i + 1..], format == HexEscape, prefix))
  {
    hide StringLiteralChar;
    assert cs[i..][1..] == cs[i + 1..];
  }

  lemma Regroup(a: string, b: string, c: string, d: string)
    ensures a + b + c + d == a + (b + (c + d)) && a + "" == a
  {
  }

  lemma NothingLeft(previousHex: bool, prefix: string)
    ensures Body([], previousHex, prefix) == "\""
  {
  }

  method PrintCharsAsStringTo(cs: seq<nat>, prefix: string) returns (out: string, printFormat: CharFormat)
    ensures out == Printed(cs, prefix)
    ensures printFormat == if exists k :: 0 <= k < |cs| && StringLiteralChar(cs[k]).1 == HexEscape then HexEscape else AsIs
  {
    hide StringLiteralChar, Body, Break, IsXDigitCode;
    out := prefix + "\"";
    assert cs[0..] == cs;
    var isPreviousHex := false;
    printFormat := AsIs;
    for index := 0 to |cs|
      invariant out + Body(cs[index..], isPreviousHex, prefix) == Printed(cs, prefix)
      invariant printFormat == if exists k :: 0 <= k < index && StringLiteralChar(cs[k]).1 == HexEscape then HexEscape else AsIs
    {
      var cur := cs[index];
      var (text, format) := StringLiteralChar(cur);
      BodyAt(cs, index, isPreviousHex, prefix);
      Regroup(out, if isPreviousHex && IsXDigitCode(cur) then Break(prefix) else "", text,
              Body(cs[index + 1..], format == HexEscape, prefix));
      if isPreviousHex && IsXDigitCode(cur) {
        // The character could be read as one more digit of the escape before it.
        out := out + Break(prefix);
      }
      out := out + text;
      isPreviousHex := format == HexEscape;
      if isPreviousHex {
        printFormat := HexEscape;
      }
    }
    assert cs[|cs|..] == [];
    NothingLeft(isPreviousHex, prefix);
    out := out + "\"";
  }

  // ---------------------------------------------------------------- the lexer

  predicate IsOctal(c: char) { '0' <= c <= '7' }

  // The number of leading octal digits of t, at most max.
  function OctalRun(t: string, max: nat): (n: nat)
    ensures n <= |t| && n <= max
  {
    if max == 0 || t == "" || !IsOctal(t[0]) then 0 else 1 + OctalRun(t[1..], max - 1)
  }

  // The value of the first n characters as octal digits.
  function OctalValue(t: string, n: nat): nat
    requires n <= |t|
  {
    if n == 0 then 0 else OctalValue(t, n - 1) * 8 + (if IsOctal(t[n - 1]) then (t[n - 1] - '0') as nat else 0)
  }

  // The number of leading hexadecimal digits of t: as many as there are.
  function HexRun(t: string): (n: nat)
    ensures n <= |t| && Hexadecimal.AllXDigits(t[..n])
  {
    if t == "" || !Hexadecimal.IsXDigit(t[0]) then 0
    else
      var n := 1 + HexRun(t[1..]);
      assert t[..n] == [t[0]] + t[1..][..n - 1];
      n
  }

  // The code of a simple escape sequence.
  function SimpleEscape(c: char): Option<nat> {
    match c
    case '\'' => Some(39)
    case '"' => Some(34)
    case '?' => Some(63)
    case '\\' => Some(92)
    case 'a' => Some(7)
    case 'b' => Some(8)
    case 'f' => Some(12)
    case 'n' => Some(10)
    case 'r' => Some(13)
    case 't' => Some(9)
    case 'v' => Some(11)
    case _ => None
  }

  // One character of a literal: its code and how much text it takes.
  function LexChar(t: string): (r: Option<(nat, nat)>)
    ensures r.Some? ==> 0 < r.value.1 <= |t|
  {
    if t == "" || t[0] == '"' || t[0] == '\n' then None
    else if t[0] != '\\' then Some((t[0] as nat, 1))
    else if |t| == 1 then None
    else if t[1] == 'x' then
      var n := HexRun(t[2..]);
      if n == 0 then None else Some((Hexadecimal.Value(t[2..][..n]), 2 + n))
    else if IsOctal(t[1]) then
      var n := OctalRun(t[1..], 3);
      Some((OctalValue(t[1..], n), 1 + n))
    else
      match SimpleEscape(t[1])
      case None => None
      case Some(code) => Some((code, 2))
  }

  function SkipSpaces(t: string): (r: string)
    ensures |r| <= |t|
  {
    if t != "" && t[0] == ' ' then SkipSpaces(t[1..]) else t
  }

  // Reads the rest of a literal and the literals that follow it after white space.
  function LexBody(t: string, prefix: string): Option<seq<nat>>
    decreases |t|
  {
    if t == "" then None
    else if t[0] == '"' then
      if |t| == 1 then Some([])
      else
        var next := SkipSpaces(t[1..]);
        var opening := prefix + "\"";
        if t[1] == ' ' && opening <= next then LexBody(next[|opening|..], prefix) else None
    else
      match LexChar(t)
      case None => None
      case Some((code, n)) =>
        match LexBody(t[n..], prefix)
        case None => None
        case Some(codes) => Some([code] + codes)
  }

  // The characters of adjacent string literals with the given prefix.
  function Lex(t: string, prefix: string): Option<seq<nat>> {
    var opening := prefix + "\"";
    if opening <= t then LexBody(t[|opening|..], prefix) else None
  }

  // ---------------------------------------------------------------- reading back

  predicate IsOctalCode(c: nat) { 0x30 <= c <= 0x37 }

  // The number of leading octal digits among the characters, at most max.
  function OctalCodes(cs: seq<nat>, max: nat): (n: nat)
    ensures n <= |cs| && n <= max
  {
    if max == 0 || cs == [] || !IsOctalCode(cs[0]) then 0 else 1 + OctalCodes(cs[1..], max - 1)
  }

  // The value of the first n characters as octal digits.
  function OctalCodesValue(cs: seq<nat>, n: nat): nat
    requires n <= |cs|
  {
    if n == 0 then 0 else OctalCodesValue(cs, n - 1) * 8 + (if IsOctalCode(cs[n - 1]) then cs[n - 1] - 0x30 else 0)
  }

  // What a reader sees: a NUL swallows up to two octal digits after it.
  function Collapse(cs: seq<nat>): seq<nat> {
    if cs == [] then []
    else if cs[0] == 0 then
      var n := OctalCodes(cs[1..], 2);
      [OctalCodesValue(cs[1..], n)] + Collapse(cs[1 + n..])
    else [cs[0]] + Collapse(cs[1..])
  }

  // A NUL directly before an octal digit.
  ghost predicate Ambiguous(cs: seq<nat>) {
    exists k :: 0 <= k && k + 1 < |cs| && cs[k] == 0 && IsOctalCode(cs[k + 1])
  }

  lemma AmbiguousTail(cs: seq<nat>)
    requires cs != []
    ensures Ambiguous(cs[1..]) ==> Ambiguous(cs)
    ensures Ambiguous(cs) ==> Ambiguous(cs[1..]) || (cs[0] == 0 && |cs| > 1 && IsOctalCode(cs[1]))
  {
    if k :| 0 <= k && k + 1 < |cs[1..]| && cs[1..][k] == 0 && IsOctalCode(cs[1..][k + 1]) {
      assert cs[k + 1] == 0 && IsOctalCode(cs[k + 1 + 1]);
    }
    if k :| 0 <= k && k + 1 < |cs| && cs[k] == 0 && IsOctalCode(cs[k + 1]) {
      if k > 0 {
        assert cs[1..][k - 1] == 0 && IsOctalCode(cs[1..][k - 1 + 1]);
      }
    }
  }

  lemma NoneAmbiguous()
    ensures !Ambiguous([])
  {
  }

  lemma AmbiguousHere(cs: seq<nat>)
    requires |cs| > 1 && cs[0] == 0 && IsOctalCode(cs[1])
    ensures Ambiguous(cs) && OctalCodes(cs[1..], 2) > 0
  {
    assert cs[0] == 0 && IsOctalCode(cs[0 + 1]);
  }

  // Nothing is swallowed, and the characters read are those printed, exactly
  // when no NUL stands directly before an octal digit.
  lemma {:induction false} CollapseIsIdentity(cs: seq<nat>)
    ensures |Collapse(cs)| <= |cs|
    ensures Ambiguous(cs) ==> |Collapse(cs)| < |cs|
    ensures !Ambiguous(cs) ==> Collapse(cs) == cs
  {
    hide Ambiguous;
    if cs == [] {
      NoneAmbiguous();
    } else {
      AmbiguousTail(cs);
      var n := if cs[0] == 0 then OctalCodes(cs[1..], 2) else 0;
      CollapseIsIdentity(cs[1 + n..]);
      if cs[0] == 0 && |cs| > 1 && IsOctalCode(cs[1]) {
        AmbiguousHere(cs);
      }
      assert cs == [cs[0]] + cs[1..];
    }
  }

  // How the text of one character begins.
  lemma FirstChar(c: nat)
    ensures var (text, format) := StringLiteralChar(c);
      && text != ""
      && (format == AsIs ==> IsPrintableAscii(c) && text == [c as char] && text[0] != '\\' && text[0] != '"' && text[0] != '\n')
      && (format != AsIs ==> text[0] == '\\' && !IsOctalCode(c) && !IsXDigitCode(c))
  {
  }

  // The text begins with an octal digit exactly if the characters do.
  lemma OctalHead(cs: seq<nat>, prefix: string)
    ensures
      var body := Body(cs, false, prefix);
      && body != "" && (IsOctal(body[0]) <==> cs != [] && IsOctalCode(cs[0]))
      && (IsOctal(body[0]) ==> body[0] as nat == cs[0] && body[1..] == Body(cs[1..], false, prefix))
  {
    hide StringLiteralChar;
    if cs != [] {
      FirstChar(cs[0]);
      assert Body(cs, false, prefix)[0] == StringLiteralChar(cs[0]).0[0];
    }
  }

  // After a NUL the reader takes exactly the octal digits that follow as text.
  lemma {:induction false} OctalRunsAgree(cs: seq<nat>, max: nat, prefix: string)
    ensures
      var body, n := Body(cs, false, prefix), OctalCodes(cs, max);
      && OctalRun(body, max) == n && body[n..] == Body(cs[n..], false, prefix)
      && forall k :: 0 <= k < n ==> IsOctalCode(cs[k]) && body[k] as nat == cs[k]
    decreases max
  {
    hide StringLiteralChar, Body;
    var body, n := Body(cs, false, prefix), OctalCodes(cs, max);
    assert cs[0..] == cs && body[0..] == body;
    OctalHead(cs, prefix);
    if n == 0 {
    } else {
      OctalRunsAgree(cs[1..], max - 1, prefix);
      assert cs[1..][n - 1..] == cs[n..] && body[1..][n - 1..] == body[n..];
    }
  }

  lemma {:induction false} OctalValuesAgree(body: string, cs: seq<nat>, n: nat)
    requires n <= |body| && n <= |cs|
    requires forall k :: 0 <= k < n ==> IsOctalCode(cs[k]) && body[k] as nat == cs[k]
    ensures OctalValue("0" + body, 1 + n) == OctalCodesValue(cs, n)
  {
    if n == 0 {
      assert OctalValue("0" + body, 0) == 0;
    } else {
      OctalValuesAgree(body, cs, n - 1);
    }
  }

  // A hexadecimal escape ends where the printer ended it.
  lemma {:induction false} HexRunStops(digits: string, rest: string)
    requires Hexadecimal.AllXDigits(digits) && (rest == "" || !Hexadecimal.IsXDigit(rest[0]))
    ensures HexRun(digits + rest) == |digits|
  {
    if digits == "" {
      assert digits + rest == rest;
    } else {
      assert (digits + rest)[1..] == digits[1..] + rest;
      HexRunStops(digits[1..], rest);
    }
  }

  // What follows a hexadecimal escape is no hexadecimal digit.
  lemma AfterHexEscape(cs: seq<nat>, prefix: string)
    ensures Body(cs, true, prefix) != "" && !Hexadecimal.IsXDigit(Body(cs, true, prefix)[0])
  {
    if cs != [] {
      FirstChar(cs[0]);
    }
  }

  // Hexadecimal digits only add to the value.
  lemma {:induction false} MoreDigits(s: string, m: nat, n: nat)
    requires m <= n <= |s| && Hexadecimal.AllXDigits(s)
    ensures Hexadecimal.Value(s[..m]) <= Hexadecimal.Value(s[..n])
    ensures m < n ==> 16 * Hexadecimal.Value(s[..m]) <= Hexadecimal.Value(s[..n])
    decreases n
  {
    if m == n {
    } else {
      MoreDigits(s, m, n - 1);
      assert s[..n][..n - 1] == s[..n - 1];
    }
  }

  lemma {:induction false} HexRunGoesOn(digits: string, rest: string)
    requires Hexadecimal.AllXDigits(digits) && rest != "" && Hexadecimal.IsXDigit(rest[0])
    ensures HexRun(digits + rest) > |digits|
  {
    if digits == "" {
      assert digits + rest == rest;
    } else {
      assert (digits + rest)[1..] == digits[1..] + rest;
      HexRunGoesOn(digits[1..], rest);
    }
  }

  // Without the break the next character would be read as part of the escape: a
  // hexadecimal escape directly followed by a hexadecimal digit means another code.
  lemma BreakIsNeeded(c: nat, rest: string)
    requires StringLiteralChar(c).1 == HexEscape && rest != "" && Hexadecimal.IsXDigit(rest[0])
    ensures var r := LexChar(StringLiteralChar(c).0 + rest);
      r.Some? && r.value.0 > c && r.value.1 > |StringLiteralChar(c).0|
  {
    var digits := Hexadecimal.Numeral(c);
    var t := "\\x" + digits + rest;
    assert StringLiteralChar(c).0 == "\\x" + digits && c > 0;
    hide StringLiteralChar;
    Hexadecimal.NumeralReadsBack(c);
    HexRunGoesOn(digits, rest);
    var n := HexRun(digits + rest);
    var read := (digits + rest)[..n];
    hide HexRun, Hexadecimal.Numeral, Hexadecimal.Value;
    assert t[2..] == digits + rest;
    MoreDigits(read, |digits|, n);
    assert read[..|digits|] == digits && read[..n] == read;
  }

  // A break is read as nothing at all.
  lemma BreakIsSkipped(prefix: string, rest: string)
    requires IsPrefix(prefix)
    ensures LexBody(Break(prefix) + rest, prefix) == LexBody(rest, prefix)
  {
    var t, opening := Break(prefix) + rest, prefix + "\"";
    assert t == "\" " + (opening + rest);
    assert t[1..] == " " + (opening + rest) && t[1..][1..] == opening + rest;
    assert SkipSpaces(opening + rest) == opening + rest;
    assert (opening + rest)[|opening|..] == rest;
  }

  lemma HexReadsBack(c: nat, rest: string)
    requires rest != "" && !Hexadecimal.IsXDigit(rest[0])
    ensures LexChar("\\x" + Hexadecimal.Numeral(c) + rest) == Some((c, 2 + |Hexadecimal.Numeral(c)|))
  {
    var digits := Hexadecimal.Numeral(c);
    var t := "\\x" + digits + rest;
    Hexadecimal.NumeralReadsBack(c);
    HexRunStops(digits, rest);
    hide HexRun, Hexadecimal.Numeral, Hexadecimal.Value;
    assert t[2..] == digits + rest && t[2..][..|digits|] == digits;
  }

  // One character of the output, NUL aside, is read back as itself.
  lemma LexCharReadsBack(c: nat, rest: string)
    requires c > 0
    requires StringLiteralChar(c).1 == HexEscape ==> rest != "" && !Hexadecimal.IsXDigit(rest[0])
    ensures LexChar(StringLiteralChar(c).0 + rest) == Some((c, |StringLiteralChar(c).0|))
  {
    hide HexRun, OctalRun, OctalValue, Hexadecimal.Value, Hexadecimal.Numeral, Hexadecimal.IsXDigit;
    var (text, format) := StringLiteralChar(c);
    var t := text + rest;
    if format == HexEscape {
      HexReadsBack(c, rest);
    } else if format == SpecialEscape {
      assert t[1] == text[1];
    }
  }

  lemma BodyAfterBreak(cs: seq<nat>, prefix: string)
    requires cs != [] && IsXDigitCode(cs[0])
    ensures Body(cs, true, prefix) == Break(prefix) + Body(cs, false, prefix)
  {
  }

  lemma OctalRunAfterZero(rest: string)
    ensures OctalRun("0" + rest, 3) == 1 + OctalRun(rest, 2)
  {
    assert ("0" + rest)[1..] == rest;
  }

  lemma LexOctal(t: string)
    requires |t| > 1 && t[0] == '\\' && IsOctal(t[1])
    ensures var n := OctalRun(t[1..], 3); LexChar(t) == Some((OctalValue(t[1..], n), 1 + n))
  {
  }

  lemma NulText()
    ensures StringLiteralChar(0) == ("\\0", SpecialEscape)
  {
  }

  lemma BodyOfNul(cs: seq<nat>, prefix: string)
    requires cs != [] && cs[0] == 0
    ensures Body(cs, false, prefix) == "\\0" + Body(cs[1..], false, prefix)
  {
    hide StringLiteralChar;
    NulText();
  }

  // A NUL is read together with the octal digits after it.
  lemma NulReadsBack(cs: seq<nat>, prefix: string)
    requires cs != [] && cs[0] == 0
    ensures
      var body, n := Body(cs, false, prefix), OctalCodes(cs[1..], 2);
      && LexChar(body) == Some((OctalCodesValue(cs[1..], n), 2 + n))
      && body[2 + n..] == Body(cs[1..][n..], false, prefix)
  {
    hide OctalCodesValue, OctalValue, OctalRun, OctalCodes, Body, LexChar;
    var rest, n := Body(cs[1..], false, prefix), OctalCodes(cs[1..], 2);
    OctalRunsAgree(cs[1..], 2, prefix);
    OctalValuesAgree(rest, cs[1..], n);
    BodyOfNul(cs, prefix);
    var body := "\\0" + rest;
    assert body[1..] == "0" + rest;
    LexOctal(body);
    OctalRunAfterZero(rest);
    assert body[2 + n..] == rest[n..];
  }

  lemma {:induction false} BodyReadsBack(cs: seq<nat>, previousHex: bool, prefix: string)
    requires IsPrefix(prefix)
    ensures LexBody(Body(cs, previousHex, prefix), prefix) == Some(Collapse(cs))
    decreases |cs|, previousHex
  {
    hide StringLiteralChar, LexChar;
    if cs == [] {
    } else if previousHex && IsXDigitCode(cs[0]) {
      BodyReadsBack(cs, false, prefix);
      BreakIsSkipped(prefix, Body(cs, false, prefix));
      BodyAfterBreak(cs, prefix);
    } else {
      var (text, format) := StringLiteralChar(cs[0]);
      var rest := Body(cs[1..], format == HexEscape, prefix);
      var body := text + rest;
      assert Body(cs, previousHex, prefix) == body;
      FirstChar(cs[0]);
      if cs[0] == 0 {
        NulReadsBack(cs, prefix);
        BodyReadsBack(cs[1..][OctalCodes(cs[1..], 2)..], false, prefix);
        assert cs[1..][OctalCodes(cs[1..], 2)..] == cs[1 + OctalCodes(cs[1..], 2)..];
      } else {
        if format == HexEscape {
          AfterHexEscape(cs[1..], prefix);
        }
        LexCharReadsBack(cs[0], rest);
        assert body[|text|..] == rest;
        BodyReadsBack(cs[1..], format == HexEscape, prefix);
      }
    }
  }

  // Reading the output back gives the characters, with every NUL and the octal
  // digits directly after it read as one escape.
  lemma PrintedReadsBack(cs: seq<nat>, prefix: string)
    requires IsPrefix(prefix)
    ensures Lex(Printed(cs, prefix), prefix) == Some(Collapse(cs))
  {
    hide Body, LexBody;
    BodyReadsBack(cs, false, prefix);
    var opening := prefix + "\"";
    assert Printed(cs, prefix) == opening + Body(cs, false, prefix);
    assert Printed(cs, prefix)[|opening|..] == Body(cs, false, prefix);
  }

  // So the literal means the original characters exactly when no NUL stands
  // directly before an octal digit.
  lemma ReadsBackIffUnambiguous(cs: seq<nat>, prefix: string)
    requires IsPrefix(prefix)
    ensures Lex(Printed(cs, prefix), prefix) == Some(cs) <==> !Ambiguous(cs)
  {
    PrintedReadsBack(cs, prefix);
    CollapseIsIdentity(cs);
  }

  lemma BodyOfOne()
    ensures Body([0x31], false, "") == "1\""
  {
    assert [0x31 as nat][1..] == [];
    assert StringLiteralChar(0x31) == ("1", AsIs);
    NothingLeft(false, "");
  }

  lemma CollapseOfNulOne()
    ensures Collapse([0, 0x31]) == [1]
  {
    var cs := [0, 0x31];
    assert cs[1..] == [0x31] && [0x31 as nat][1..] == [] && cs[1 + 1..] == [];
    assert OctalCodes([0x31], 2) == 1 && OctalCodesValue([0x31], 1) == 1;
  }

  // A NUL and the digit 1 are printed as \01 and read as the character with code 1.
  lemma NulDigitExample()
    ensures Printed([0, 0x31], "") == "\"\\01\""
    ensures Lex(Printed([0, 0x31], ""), "") == Some([1]) != Some([0, 0x31])
  {
    hide Body, Lex, Collapse;
    var cs := [0, 0x31];
    assert cs[1..] == [0x31];
    BodyOfOne();
    BodyOfNul(cs, "");
    PrintedReadsBack(cs, "");
    CollapseOfNulOne();
  }

  // ---------------------------------------------------------------- in characters

  // What each character of a string is printed as: itself from space to tilde, save
  // the quote and the backslash; the escapes of C++ by name; the rest in hexadecimal.
  lemma PrintedAs(c: nat)
    ensures 32 <= c <= 126 && c != 34 && c != 92 ==> StringLiteralChar(c) == ([c as char], AsIs)
    ensures StringLiteralChar(34) == ("\\\"", SpecialEscape) && StringLiteralChar(92) == ("\\\\", SpecialEscape)
    ensures StringLiteralChar(0) == ("\\0", SpecialEscape) && StringLiteralChar(7) == ("\\a", SpecialEscape)
    ensures StringLiteralChar(8) == ("\\b", SpecialEscape) && StringLiteralChar(9) == ("\\t", SpecialEscape)
    ensures StringLiteralChar(10) == ("\\n", SpecialEscape) && StringLiteralChar(11) == ("\\v", SpecialEscape)
    ensures StringLiteralChar(12) == ("\\f", SpecialEscape) && StringLiteralChar(13) == ("\\r", SpecialEscape)
    ensures 1 <= c <= 6 || 14 <= c <= 31 || c >= 127 ==>
      StringLiteralChar(c) == ("\\x" + Hexadecimal.Numeral(c), HexEscape)
  {
  }

  // A character literal escapes the other quote.
  lemma QuotesInCharacters()
    ensures CharLiteral(39) == ("\\'", SpecialEscape) && CharLiteral(34) == ("\"", AsIs)
  {
  }

  // The quotes, the prefix and the break, on examples: nothing, and a bell ...
  lemma PlainExamples()
    ensures Printed([], "u8") == "u8\"\"" && Printed([7], "") == "\"\\a\""
  {
    assert [7][1..] == [];
  }

  // ... code 1 before an A, which would otherwise be read as a digit ...
  lemma BreakExample()
    ensures Printed([1, 65], "L") == "L\"\\x1\" L\"A\""
  {
    assert [1, 65][1..] == [65] && [65][1..] == [] && Hexadecimal.Numeral(1) == "1";
    PrintedAs(65);
    hide StringLiteralChar;
    PrintedAs(1);
  }

  // ... and before a g, which would not.
  lemma NoBreakExample()
    ensures Printed([1, 103], "") == "\"\\x1g\""
  {
    assert [1, 103][1..] == [103] && [103][1..] == [] && Hexadecimal.Numeral(1) == "1";
    PrintedAs(103);
    hide StringLiteralChar;
    PrintedAs(1);
  }

  // The reader of the literals: escapes by name, and any other character but a quote,
  // a backslash or a newline as itself.
  lemma ReadAs(c: char, rest: string)
    ensures LexChar("\\a" + rest) == Some((7, 2)) && LexChar("\\b" + rest) == Some((8, 2))
    ensures LexChar("\\t" + rest) == Some((9, 2)) && LexChar("\\n" + rest) == Some((10, 2))
    ensures LexChar("\\v" + rest) == Some((11, 2)) && LexChar("\\f" + rest) == Some((12, 2))
    ensures LexChar("\\r" + rest) == Some((13, 2)) && LexChar("\\\"" + rest) == Some((34, 2))
    ensures LexChar("\\'" + rest) == Some((39, 2)) && LexChar("\\?" + rest) == Some((63, 2))
    ensures LexChar("\\\\" + rest) == Some((92, 2))
    ensures c !in "\"\\\n" ==> LexChar([c] + rest) == Some((c as nat, 1))
  {
  }

  // Its numbers: up to three octal digits ...
  lemma ReadOctal()
    ensures LexChar("\\0128") == Some((10, 4)) && LexChar("\\18") == Some((1, 2))
  {
  }

  lemma OneMoreXDigit(c: char, t: string)
    requires Hexadecimal.IsXDigit(c)
    ensures HexRun([c] + t) == 1 + HexRun(t)
  {
    assert ([c] + t)[1..] == t;
  }

  lemma SampleValue()
    ensures Hexadecimal.AllXDigits("1fA") && Hexadecimal.Value("1fA") == 506
  {
    assert "1fA"[..2] == "1f" && "1f"[..1] == "1" && "1"[..0] == "";
    assert Hexadecimal.Value("1f") == 31;
  }

  lemma HexEscapeAt(t: string)
    ensures LexChar("\\x" + t) ==
            if HexRun(t) == 0 then None else Some((Hexadecimal.Value(t[..HexRun(t)]), 2 + HexRun(t)))
  {
    hide HexRun, Hexadecimal.Value, Hexadecimal.AllXDigits;
    assert ("\\x" + t)[2..] == t;
  }

  lemma SampleRun(rest: string)
    requires rest == "" || !Hexadecimal.IsXDigit(rest[0])
    ensures HexRun("1fA" + rest) == 3
  {
    assert HexRun(rest) == 0;
    OneMoreXDigit('A', rest);
    OneMoreXDigit('f', "A" + rest);
    OneMoreXDigit('1', "fA" + rest);
    hide HexRun;
    assert "1fA" + rest == "1" + ("fA" + rest) && "fA" + rest == "f" + ("A" + rest);
  }

  // ... or all the hexadecimal digits there are.
  lemma ReadHexadecimal(rest: string)
    requires rest == "" || !Hexadecimal.IsXDigit(rest[0])
    ensures LexChar("\\x1fA" + rest) == Some((506, 5))
  {
    hide LexChar, HexRun, Hexadecimal.Value, Hexadecimal.AllXDigits;
    SampleRun(rest);
    SampleValue();
    HexEscapeAt("1fA" + rest);
    assert ("1fA" + rest)[..3] == "1fA" && "\\x" + ("1fA" + rest) == "\\x1fA" + rest;
  }
}
