// The XML report's two escaping routines, and readers for what they write:
// CDATA sections (section 2.7 of XML 1.0) and attribute values (section 3.3.3).
module XmlWriter {
  import Hexadecimal
  import opened Prelude

  // ---------------------------------------------------------------- CDATA

  const CDATA_START := "<![CDATA["
  const CDATA_END := "]]>"
  // Ends the section, writes the end marker as text, and begins another section.
  const CDATA_BREAK := "]]>]]&gt;<![CDATA["

  // strstr: the position of the first occurrence of text at or after pos, or -1.
  function FindText(s: string, text: string, pos: nat): (i: int)
    requires pos <= |s|
    ensures i >= 0 ==> pos <= i <= |s| && text <= s[i..]
    ensures forall k :: pos <= k && (i < 0 || k < i) && k <= |s| ==> !(text <= s[k..])
    decreases |s| - pos
  {
    if text <= s[pos..] then pos else if pos == |s| then -1 else FindText(s, text, pos + 1)
  }

  // The contents of the section as written: every end marker is broken up.
  function Broken(data: string): string
    decreases |data|
  {
    if data == "" then ""
    else if CDATA_END <= data then CDATA_BREAK + Broken(data[3..])
    else [data[0]] + Broken(data[1..])
  }

  lemma BrokenStep(data: string)
    ensures data == "" ==> Broken(data) == ""
    ensures CDATA_END <= data ==> Broken(data) == CDATA_BREAK + Broken(data[3..])
    ensures data != "" && !(CDATA_END <= data) ==> Broken(data) == [data[0]] + Broken(data[1..])
    ensures (Broken(data) + CDATA_END)[0] == if data == "" then ']' else data[0]
  {
  }

  // A stretch in which no end marker starts is copied.
  lemma {:induction false} BrokenFrom(data: string, start: nat, end: nat)
    requires start <= end <= |data| && forall k :: start <= k < end ==> !(CDATA_END <= data[k..])
    ensures Broken(data[start..]) == data[start..end] + Broken(data[end..])
    decreases end - start
  {
    hide Broken;
    if start == end {
    } else {
      BrokenStep(data[start..]);
      BrokenFrom(data, start + 1, end);
      assert data[start..][1..] == data[start + 1..];
      assert data[start..end] == [data[start]] + data[start + 1..end];
    }
  }

  lemma AppendBreak(out: string, text: string, rest: string)
    ensures out + text + CDATA_BREAK + rest == out + (text + (CDATA_BREAK + rest))
  {
  }

  method OutputXmlCDataSection(data: CString) returns (out: string)
    ensures out == CDATA_START + Broken(data) + CDATA_END
  {
    hide Broken;
    BrokenStep("");
    var segment := 0;
    out := CDATA_START;
    while true
      invariant segment <= |data|
      invariant out + Broken(data[segment..]) == CDATA_START + Broken(data)
      decreases |data| - segment
    {
      var nextSegment := FindText(data, CDATA_END, segment);
      if nextSegment < 0 {
        BrokenFrom(data, segment, |data|);
        assert data[|data|..] == "" && data[segment..|data|] == data[segment..];
        out := out + data[segment..];
        break;
      }
      BrokenFrom(data, segment, nextSegment);
      BrokenStep(data[nextSegment..]);
      AppendBreak(out, data[segment..nextSegment], Broken(data[nextSegment + 3..]));
      out := out + data[segment..nextSegment];
      out := out + CDATA_BREAK;
      segment := nextSegment + |CDATA_END|;
      assert data[nextSegment..][3..] == data[segment..];
    }
    out := out + CDATA_END;
  }

  function Prepend(c: char, r: Option<string>): Option<string> {
    match r
    case None => None
    case Some(s) => Some([c] + s)
  }

  // A reference: one of the five predefined entities or a hexadecimal character
  // reference; its character and its length.
  function ReadReference(t: string): (r: Option<(char, nat)>)
    ensures r.Some? ==> 0 < r.value.1 <= |t|
  {
    if "&lt;" <= t then Some(('<', 4))
    else if "&gt;" <= t then Some(('>', 4))
    else if "&amp;" <= t then Some(('&', 5))
    else if "&apos;" <= t then Some(('\'', 6))
    else if "&quot;" <= t then Some(('"', 6))
    else if "&#x" <= t && |t| >= 6 && Hexadecimal.IsXDigit(t[3]) && Hexadecimal.IsXDigit(t[4]) && t[5] == ';' then
      Some(((Hexadecimal.DigitValue(t[3]) * 16 + Hexadecimal.DigitValue(t[4])) as char, 6))
    else None
  }

  // The character data an XML reader finds in content made of text and CDATA
  // sections.  Outside a section "]]>" and '<' may not stand as text.
  function ReadContent(t: string, inSection: bool): Option<string>
    decreases |t|
  {
    if inSection then
      if CDATA_END <= t then ReadContent(t[3..], false)
      else if t == "" then None
      else Prepend(t[0], ReadContent(t[1..], true))
    else
      if t == "" then Some("")
      else if CDATA_START <= t then ReadContent(t[9..], true)
      else if t[0] == '<' || CDATA_END <= t then None
      else if t[0] == '&' then
        match ReadReference(t)
        case None => None
        case Some((c, n)) => Prepend(c, ReadContent(t[n..], false))
      else Prepend(t[0], ReadContent(t[1..], false))
  }

  lemma ReadNothing()
    ensures ReadContent("", false) == Some("")
  {
  }

  // One step inside a section ...
  lemma ReadInSection(t: string)
    ensures CDATA_END <= t ==> ReadContent(t, true) == ReadContent(t[3..], false)
    ensures t != "" && !(CDATA_END <= t) ==> ReadContent(t, true) == Prepend(t[0], ReadContent(t[1..], true))
  {
  }

  // ... and outside.
  lemma ReadOutside(t: string)
    ensures CDATA_START <= t ==> ReadContent(t, false) == ReadContent(t[9..], true)
    ensures "&gt;" <= t ==> ReadContent(t, false) == Prepend('>', ReadContent(t[4..], false))
    ensures t != "" && t[0] != '<' && t[0] != '&' && !(CDATA_END <= t) ==>
      ReadContent(t, false) == Prepend(t[0], ReadContent(t[1..], false))
  {
    if "&gt;" <= t {
      assert t[0] == '&' && t[1] == 'g';
      assert ReadReference(t) == Some(('>', 4));
    }
  }

  lemma MarkersRead(rest: string)
    ensures ReadContent(CDATA_END + rest, true) == ReadContent(rest, false)
    ensures ReadContent(CDATA_START + rest, false) == ReadContent(rest, true)
  {
    hide ReadContent;
    ReadInSection(CDATA_END + rest);
    assert (CDATA_END + rest)[3..] == rest;
    ReadOutside(CDATA_START + rest);
    assert (CDATA_START + rest)[9..] == rest;
  }

  lemma EscapedEndReads(rest: string)
    ensures ReadContent("]]&gt;" + rest, false) == Prepend(']', Prepend(']', Prepend('>', ReadContent(rest, false))))
  {
    hide ReadContent, ReadReference;
    var t, t1, t2 := "]]&gt;" + rest, "]&gt;" + rest, "&gt;" + rest;
    ReadOutside(t);
    assert t[1..] == t1;
    ReadOutside(t1);
    assert t1[1..] == t2;
    ReadOutside(t2);
    assert t2[4..] == rest;
  }

  // Reading CDATA_BREAK inside a section leaves "]]>" as text and the section open.
  lemma BreakReadsAsEnd(rest: string)
    ensures ReadContent(CDATA_BREAK + rest, true) ==
            Prepend(']', Prepend(']', Prepend('>', ReadContent(rest, true))))
  {
    hide ReadContent, ReadReference, Prepend;
    var inner := "]]&gt;" + (CDATA_START + rest);
    assert CDATA_BREAK + rest == CDATA_END + inner;
    MarkersRead(inner);
    EscapedEndReads(CDATA_START + rest);
    MarkersRead(rest);
  }

  // The first two characters of what follows.
  lemma SecondOfBroken(data: string)
    ensures
      var t := Broken(data) + CDATA_END;
      && |t| >= 3 && t[0] == (if data == "" then ']' else data[0])
      && (t[1] == '>' ==> |data| > 1 && data[1] == '>')
  {
    hide Broken;
    BrokenStep(data);
    if data != "" && !(CDATA_END <= data) {
      BrokenStep(data[1..]);
      assert (Broken(data) + CDATA_END)[1..] == Broken(data[1..]) + CDATA_END;
    }
  }

  // An end marker in the written contents can only come from a break.
  lemma NoEarlyEnd(data: string)
    requires data != "" && !(CDATA_END <= data)
    ensures !(CDATA_END <= Broken(data) + CDATA_END)
  {
    hide Broken;
    BrokenStep(data);
    var t := Broken(data) + CDATA_END;
    SecondOfBroken(data[1..]);
    assert t[1..] == Broken(data[1..]) + CDATA_END;
    assert t[1] == t[1..][0] && t[2] == t[1..][1];
  }

  lemma {:induction false} BrokenReadsBack(data: string)
    ensures ReadContent(Broken(data) + CDATA_END, true) == Some(data)
    decreases |data|
  {
    hide Broken, ReadContent;
    BrokenStep(data);
    var t := Broken(data) + CDATA_END;
    ReadInSection(t);
    if data == "" {
      assert t == CDATA_END && t[3..] == "";
      assert ReadContent("", false) == Some("") by { ReadNothing(); }
    } else if CDATA_END <= data {
      BrokenReadsBack(data[3..]);
      BreakReadsAsEnd(Broken(data[3..]) + CDATA_END);
      assert t == CDATA_BREAK + (Broken(data[3..]) + CDATA_END);
      assert data == [']'] + ([']'] + (['>'] + data[3..]));
    } else {
      BrokenReadsBack(data[1..]);
      NoEarlyEnd(data);
      assert t == [data[0]] + (Broken(data[1..]) + CDATA_END);
      assert t[1..] == Broken(data[1..]) + CDATA_END;
      assert data == [data[0]] + data[1..];
    }
  }

  // The reader recovers exactly the text, however many "]]>" it has.
  lemma CDataReadsBack(data: string)
    ensures ReadContent(CDATA_START + Broken(data) + CDATA_END, false) == Some(data)
  {
    hide Broken, ReadContent;
    var t := CDATA_START + Broken(data) + CDATA_END;
    ReadOutside(t);
    assert t[9..] == Broken(data) + CDATA_END;
    BrokenReadsBack(data);
  }

  // ---------------------------------------------------------------- attributes

  // Characters are those of a byte string.
  predicate IsNormalizableWhitespace(c: char) { c == '\t' || c == '\n' || c == '\r' }

  predicate IsValidXmlCharacter(c: char) { IsNormalizableWhitespace(c) || c >= ' ' }

  // "%02X" of a byte.
  function FormatByte(c: char): string
    requires c < '\U{100}'
  {
    [Hexadecimal.DigitChar(c as nat / 16), Hexadecimal.DigitChar(c as nat % 16)]
  }

  // What one character becomes.
  function EscapeChar(c: char, isAttribute: bool): string {
    match c
    case '<' => "&lt;"
    case '>' => "&gt;"
    case '&' => "&amp;"
    case '\'' => if isAttribute then "&apos;" else "'"
    case '"' => if isAttribute then "&quot;" else "\""
    case _ =>
      if !IsValidXmlCharacter(c) then ""
      else if isAttribute && IsNormalizableWhitespace(c) then "&#x" + FormatByte(c) + ";"
      else [c]
  }

  function Escaped(s: string, isAttribute: bool): string {
    if s == "" then "" else EscapeChar(s[0], isAttribute) + Escaped(s[1..], isAttribute)
  }

  // The switch of the loop body.
  method EscapeOne(ch: char, isAttribute: bool) returns (text: string)
    ensures text == EscapeChar(ch, isAttribute)
  {
    text := "";
    match ch {
      case '<' => text := "&lt;";
      case '>' => text := "&gt;";
      case '&' => text := "&amp;";
      case '\'' =>
        if isAttribute { text := "&apos;"; } else { text := "'"; }
      case '"' =>
        if isAttribute { text := "&quot;"; } else { text := "\""; }
      case _ =>
        if IsValidXmlCharacter(ch) {
          if isAttribute && IsNormalizableWhitespace(ch) {
            text := "&#x" + FormatByte(ch) + ";";
          } else {
            text := [ch];
          }
        }
    }
  }

  method EscapeXml(str: string, isAttribute: bool) returns (m: string)
    ensures m == Escaped(str, isAttribute)
  {
    hide EscapeChar;
    m := "";
    for i := 0 to |str|
      invariant m + Escaped(str[i..], isAttribute) == Escaped(str, isAttribute)
    {
      assert str[i..][1..] == str[i + 1..];
      ghost var before := m;
      var text := EscapeOne(str[i], isAttribute);
      m := m + text;
      assert m + Escaped(str[i + 1..], isAttribute) == before + (text + Escaped(str[i + 1..], isAttribute));
    }
    assert str[|str|..] == "";
  }

  function WithoutInvalid(s: string): string {
    if s == "" then "" else (if IsValidXmlCharacter(s[0]) then [s[0]] else "") + WithoutInvalid(s[1..])
  }

  method RemoveInvalidXmlCharacters(str: string) returns (output: string)
    ensures output == WithoutInvalid(str)
    ensures forall k :: 0 <= k < |output| ==> IsValidXmlCharacter(output[k])
  {
    output := "";
    for i := 0 to |str|
      invariant output + WithoutInvalid(str[i..]) == WithoutInvalid(str)
      invariant forall k :: 0 <= k < |output| ==> IsValidXmlCharacter(output[k])
    {
      assert str[i..][1..] == str[i + 1..];
      if IsValidXmlCharacter(str[i]) {
        assert (output + [str[i]]) + WithoutInvalid(str[i + 1..]) == output + ([str[i]] + WithoutInvalid(str[i + 1..]));
        output := output + [str[i]];
      }
    }
    assert str[|str|..] == "";
  }

  function PrependValue(c: char, r: Option<(string, string)>): Option<(string, string)> {
    match r
    case None => None
    case Some((value, rest)) => Some(([c] + value, rest))
  }

  // The value of an attribute up to its closing quote: references stand for their
  // characters, literal white space becomes a space, '<' may not occur.
  function ReadAttribute(t: string): Option<(string, string)>
    decreases |t|
  {
    if t == "" || t[0] == '<' then None
    else if t[0] == '"' then Some(("", t[1..]))
    else if t[0] == '&' then
      match ReadReference(t)
      case None => None
      case Some((c, n)) => PrependValue(c, ReadAttribute(t[n..]))
    else PrependValue(if IsNormalizableWhitespace(t[0]) then ' ' else t[0], ReadAttribute(t[1..]))
  }

  // The escaped form of a character reads back as the character, or as nothing if it is invalid.
  lemma EscapedCharReadsBack(c: char, rest: string)
    ensures ReadAttribute(EscapeChar(c, true) + rest) ==
            if IsValidXmlCharacter(c) then PrependValue(c, ReadAttribute(rest)) else ReadAttribute(rest)
  {
    var text := EscapeChar(c, true);
    var t := text + rest;
    if text == "" {
      assert t == rest;
    } else {
      assert t[|text|..] == rest;
      if IsNormalizableWhitespace(c) {
        assert t[3] == text[3] && t[4] == text[4] && t[5] == ';';
        assert ReadReference(t) == Some((c, 6));
      } else if text[0] == '&' {
        assert t[1] == text[1] && t[2] == text[2];
        assert ReadReference(t) == Some((c, |text|));
      }
    }
  }

  lemma ReadQuote(rest: string)
    ensures ReadAttribute("\"" + rest) == Some(("", rest))
  {
    assert ("\"" + rest)[1..] == rest;
  }

  // The reader recovers exactly the valid characters, and what follows the quote.
  lemma {:induction false} AttributeReadsBack(s: string, rest: string)
    ensures ReadAttribute(Escaped(s, true) + "\"" + rest) == Some((WithoutInvalid(s), rest))
  {
    hide EscapeChar, ReadReference, ReadAttribute;
    if s == "" {
      ReadQuote(rest);
      assert Escaped(s, true) + "\"" + rest == "\"" + rest;
    } else {
      var tail := Escaped(s[1..], true) + "\"" + rest;
      AttributeReadsBack(s[1..], rest);
      EscapedCharReadsBack(s[0], tail);
      assert Escaped(s, true) + "\"" + rest == EscapeChar(s[0], true) + tail;
      assert "" + WithoutInvalid(s[1..]) == WithoutInvalid(s[1..]);
    }
  }

  // Escaped text never has a literal '>', so no end marker either.
  lemma {:induction false} EscapedHasNoGreater(s: string)
    ensures forall k :: 0 <= k < |Escaped(s, false)| ==> Escaped(s, false)[k] != '>'
  {
    if s == "" {
    } else {
      EscapedHasNoGreater(s[1..]);
    }
  }

  lemma EscapedTextReadsBack(c: char, rest: string)
    requires !(CDATA_END <= EscapeChar(c, false) + rest)
    ensures ReadContent(EscapeChar(c, false) + rest, false) ==
            if IsValidXmlCharacter(c) then Prepend(c, ReadContent(rest, false)) else ReadContent(rest, false)
  {
    var text := EscapeChar(c, false);
    var t := text + rest;
    if text == "" {
      assert t == rest;
    } else {
      assert t[|text|..] == rest && t[0] == text[0];
      if text[0] == '&' {
        assert t[1] == text[1] && t[2] == text[2];
        assert ReadReference(t) == Some((c, |text|));
      }
    }
  }

  // As element content, too, the reader recovers exactly the valid characters.
  lemma {:induction false} TextReadsBack(s: string)
    ensures ReadContent(Escaped(s, false), false) == Some(WithoutInvalid(s))
  {
    if s == "" {
    } else {
      TextReadsBack(s[1..]);
      var text, rest := EscapeChar(s[0], false), Escaped(s[1..], false);
      var t := text + rest;
      EscapedHasNoGreater(s);
      assert t == Escaped(s, false) && CDATA_END[2] == '>';
      assert |t| > 2 ==> t[2] != CDATA_END[2];
      EscapedTextReadsBack(s[0], rest);
      assert "" + WithoutInvalid(s[1..]) == WithoutInvalid(s[1..]);
    }
  }

  // ---------------------------------------------------------------- in characters

  // What each character is written as: tab, newline, carriage return and everything
  // from space on may occur in XML; of these, markup is written by name, quotes and
  // line ends are only escaped in attributes, and the rest stands for itself.
  lemma EscapedAs(c: char, isAttribute: bool)
    ensures EscapeChar('<', isAttribute) == "&lt;" && EscapeChar('>', isAttribute) == "&gt;"
    ensures EscapeChar('&', isAttribute) == "&amp;"
    ensures EscapeChar('\'', true) == "&apos;" && EscapeChar('"', true) == "&quot;"
    ensures EscapeChar('\'', false) == "'" && EscapeChar('"', false) == "\""
    ensures EscapeChar('\t', true) == "&#x09;" && EscapeChar('\n', true) == "&#x0A;" && EscapeChar('\r', true) == "&#x0D;"
    ensures EscapeChar('\t', false) == "\t" && EscapeChar('\n', false) == "\n" && EscapeChar('\r', false) == "\r"
    ensures c as int >= 32 && c !in "<>&'\"" ==> EscapeChar(c, isAttribute) == [c]
    ensures c as int < 32 && c as int !in {9, 10, 13} ==> EscapeChar(c, isAttribute) == ""
  {
  }

  lemma FirstOfEscaped(c: char, rest: string, isAttribute: bool)
    ensures Escaped([c] + rest, isAttribute) == EscapeChar(c, isAttribute) + Escaped(rest, isAttribute)
  {
    assert ([c] + rest)[1..] == rest;
  }

  lemma FirstOfValid(c: char, rest: string)
    ensures WithoutInvalid([c] + rest) == (if IsValidXmlCharacter(c) then [c] else "") + WithoutInvalid(rest)
  {
    assert ([c] + rest)[1..] == rest;
  }

  lemma Regroup(first: string, rest: string, last: string)
    ensures first + (rest + last) == first + rest + last
  {
  }

  // Character by character.
  lemma {:induction false} EscapedConcat(a: string, b: string, isAttribute: bool)
    ensures Escaped(a + b, isAttribute) == Escaped(a, isAttribute) + Escaped(b, isAttribute)
  {
    hide EscapeChar;
    if a == "" {
      assert a + b == b;
    } else {
      EscapedConcat(a[1..], b, isAttribute);
      FirstOfEscaped(a[0], a[1..], isAttribute);
      FirstOfEscaped(a[0], a[1..] + b, isAttribute);
      hide Escaped;
      assert a == [a[0]] + a[1..] && a + b == [a[0]] + (a[1..] + b);
      Regroup(EscapeChar(a[0], isAttribute), Escaped(a[1..], isAttribute), Escaped(b, isAttribute));
    }
  }

  lemma {:induction false} WithoutInvalidConcat(a: string, b: string)
    ensures WithoutInvalid(a + b) == WithoutInvalid(a) + WithoutInvalid(b)
  {
    hide IsValidXmlCharacter;
    if a == "" {
      assert a + b == b;
    } else {
      WithoutInvalidConcat(a[1..], b);
      FirstOfValid(a[0], a[1..]);
      FirstOfValid(a[0], a[1..] + b);
      hide WithoutInvalid;
      assert a == [a[0]] + a[1..] && a + b == [a[0]] + (a[1..] + b);
      Regroup(if IsValidXmlCharacter(a[0]) then [a[0]] else "", WithoutInvalid(a[1..]), WithoutInvalid(b));
    }
  }

  lemma KeptOrNot(c: char)
    ensures WithoutInvalid([c]) == if c as int >= 32 || c as int in {9, 10, 13} then [c] else ""
  {
    assert [c][1..] == "";
  }

  // Sections as they are written: around a text without an end marker ...
  lemma PlainSection()
    ensures CDATA_START + Broken("a<") + CDATA_END == "<![CDATA[a<]]>"
  {
    BrokenStep("a<");
    BrokenStep("<");
    BrokenStep("");
    hide Broken;
    assert "a<"[1..] == "<" && "<"[1..] == "";
  }

  // ... and broken at one.
  lemma BrokenSection()
    ensures CDATA_START + Broken("a]]>") + CDATA_END == "<![CDATA[a]]>]]&gt;<![CDATA[]]>"
  {
    BrokenStep("a]]>");
    BrokenStep("]]>");
    BrokenStep("");
    hide Broken;
    assert "a]]>"[1..] == "]]>" && "]]>"[3..] == "";
  }
}
