// The diff as printed: a reader that recovers the hunks from the text, and a
// patch program that needs nothing but the text and the left file.
module DiffText {
  import opened EditScript
  import opened ScriptGeometry
  import opened DiffHunk
  import opened UnifiedDiff
  import opened Patch
  import opened Decimal
  import opened Splitting
  import opened Prelude

  // ---------------------------------------------------------------- lines

  // What a line must not contain to be printed as one line: a newline, or a NUL,
  // which would end it early.
  predicate Clean(line: string) { '\n' !in line && '\0' !in line }

  ghost predicate AllClean(lines: seq<string>) {
    forall k :: 0 <= k < |lines| ==> Clean(lines[k])
  }

  function Unlines(lines: seq<string>): string {
    if lines == [] then "" else Unlines(lines[..|lines| - 1]) + lines[|lines| - 1] + "\n"
  }

  lemma UnlinesAppend(lines: seq<string>, line: string)
    ensures Unlines(lines + [line]) == Unlines(lines) + line + "\n"
  {
    assert (lines + [line])[..|lines|] == lines;
  }

  lemma Regroup(a: string, b: string, c: string, d: string)
    ensures a + (b + c + d) == a + b + c + d && a + b + (c + d) == a + b + c + d
    ensures a + ((b + c) + d) == (a + b + c) + d
  {
  }

  lemma {:induction false} UnlinesConcat(a: seq<string>, b: seq<string>)
    ensures Unlines(a + b) == Unlines(a) + Unlines(b)
  {
    if b == [] {
      assert a + b == a;
    } else {
      var init, last := b[..|b| - 1], b[|b| - 1];
      UnlinesConcat(a, init);
      assert b == init + [last] && a + b == (a + init) + [last];
      hide Unlines;
      UnlinesAppend(a + init, last);
      UnlinesAppend(init, last);
      Regroup(Unlines(a), Unlines(init), last, "\n");
    }
  }

  // The pieces between delimiters.
  function Split(s: string, delimiter: char): seq<string>
    decreases |s|
  {
    var i := Find(s, delimiter, 0);
    if i == |s| then [s] else [s[..i]] + Split(s[i + 1..], delimiter)
  }

  lemma {:induction false} SplitSplits(s: string, delimiter: char)
    ensures IsSplit(Split(s, delimiter), s, delimiter)
    decreases |s|
  {
    var i := Find(s, delimiter, 0);
    if i == |s| {
    } else {
      SplitSplits(s[i + 1..], delimiter);
      assert s == s[..i] + [delimiter] + s[i + 1..];
      assert forall k :: 0 <= k < i ==> s[k] == s[0..i][k];
    }
  }

  lemma SplitIs(parts: seq<string>, s: string, delimiter: char)
    requires IsSplit(parts, s, delimiter)
    ensures Split(s, delimiter) == parts
  {
    SplitSplits(s, delimiter);
    SplitIsUnique(Split(s, delimiter), parts, s, delimiter);
  }

  lemma {:induction false} JoinLines(lines: seq<string>)
    ensures Join(lines + [""], '\n') == Unlines(lines)
    ensures lines != [] ==> Join(lines, '\n') + "\n" == Unlines(lines)
  {
    if lines == [] {
    } else {
      var init, last := lines[..|lines| - 1], lines[|lines| - 1];
      JoinLines(init);
      assert lines == init + [last];
      if init != [] {
        JoinSnoc(init, last, '\n');
      }
      JoinSnoc(lines, "", '\n');
    }
  }

  // Splitting at newlines gives the lines, and an empty piece after the last newline.
  lemma {:induction false} LinesSplit(lines: seq<string>)
    requires forall k :: 0 <= k < |lines| ==> '\n' !in lines[k]
    ensures Split(Unlines(lines), '\n') == lines + [""]
  {
    JoinLines(lines);
    SplitIs(lines + [""], Unlines(lines), '\n');
  }

  // ---------------------------------------------------------------- reading a header

  // A range such as "-3,7": where it starts and how long it is.
  function ReadRange(field: string, sign: char): Option<(nat, nat)> {
    if field == "" || field[0] != sign then None
    else
      var numbers := Split(field[1..], ',');
      if |numbers| == 2 && AllDigits(numbers[0]) && AllDigits(numbers[1]) && numbers[0] != "" && numbers[1] != "" then
        Some((Value(numbers[0]), Value(numbers[1])))
      else None
  }

  // The ranges of a header, of which one may be missing.
  function ReadHeader(line: string): Option<(Option<(nat, nat)>, Option<(nat, nat)>)> {
    var fields := Split(line, ' ');
    if |fields| == 3 && fields[0] == fields[2] == "@@" then
      if ReadRange(fields[1], '-').Some? then Some((ReadRange(fields[1], '-'), None))
      else if ReadRange(fields[1], '+').Some? then Some((None, ReadRange(fields[1], '+')))
      else None
    else if |fields| == 4 && fields[0] == fields[3] == "@@" then
      if ReadRange(fields[1], '-').Some? && ReadRange(fields[2], '+').Some? then
        Some((ReadRange(fields[1], '-'), ReadRange(fields[2], '+')))
      else None
    else None
  }

  lemma NumeralHasNo(n: nat, c: char)
    requires !('0' <= c <= '9')
    ensures c !in Numeral(n)
  {
    NumeralIsCanonical(n);
  }

  lemma JoinOne(part: string, delimiter: char)
    ensures Join([part], delimiter) == part
  {
  }

  lemma JoinFirst(part: string, rest: seq<string>, delimiter: char)
    requires rest != []
    ensures Join([part] + rest, delimiter) == part + [delimiter] + Join(rest, delimiter)
  {
    assert ([part] + rest)[1..] == rest;
  }

  lemma BehindSign(sign: char, a: string, b: string)
    ensures ([sign] + a + "," + b)[1..] == a + [','] + b
  {
  }

  lemma TwoNumbers(a: string, b: string)
    requires ',' !in a && ',' !in b
    ensures Split(a + [','] + b, ',') == [a, b]
  {
    hide Split, Join;
    JoinOne(b, ',');
    JoinFirst(a, [b], ',');
    assert [a] + [b] == [a, b];
    SplitIs([a, b], a + [','] + b, ',');
  }

  lemma RangeSplits(sign: char, start: nat, length: nat)
    ensures Split(Range(sign, start, length)[1..], ',') == [Numeral(start), Numeral(length)]
  {
    hide Numeral, Split;
    NumeralHasNo(start, ',');
    NumeralHasNo(length, ',');
    BehindSign(sign, Numeral(start), Numeral(length));
    TwoNumbers(Numeral(start), Numeral(length));
  }

  lemma RangeReadsBack(sign: char, start: nat, length: nat)
    ensures ReadRange(Range(sign, start, length), sign) == Some((start, length))
  {
    hide Numeral, Split, Value;
    RangeSplits(sign, start, length);
    NumeralIsCanonical(start);
    NumeralIsCanonical(length);
  }

  lemma RangeHasNoSpace(sign: char, start: nat, length: nat)
    requires sign == '-' || sign == '+'
    ensures ' ' !in Range(sign, start, length) && '\n' !in Range(sign, start, length)
  {
    NumeralHasNo(start, ' ');
    NumeralHasNo(length, ' ');
    NumeralHasNo(start, '\n');
    NumeralHasNo(length, '\n');
  }

  // The header without its newline.
  function HeaderLine(h: PrintedHunk): string {
    Header(h)[..|Header(h)| - 1]
  }

  function LeftRange(h: PrintedHunk): Option<(nat, nat)> {
    if h.removes > 0 then Some((h.leftStart, h.removes + h.common)) else None
  }

  function RightRange(h: PrintedHunk): Option<(nat, nat)> {
    if h.adds > 0 then Some((h.rightStart, h.adds + h.common)) else None
  }

  lemma HeaderLineIs(h: PrintedHunk)
    requires h.adds + h.removes > 0
    ensures
      var l, r := Range('-', h.leftStart, h.removes + h.common), Range('+', h.rightStart, h.adds + h.common);
      HeaderLine(h) == (if h.removes > 0 && h.adds > 0 then "@@" + " " + l + " " + r + " " + "@@"
                        else "@@" + " " + (if h.removes > 0 then l else r) + " " + "@@")
    ensures Header(h) == HeaderLine(h) + "\n"
  {
    hide Range;
  }

  lemma OtherSign(start: nat, length: nat)
    ensures ReadRange(Range('+', start, length), '-') == None
  {
  }

  lemma JoinThree(a: string, b: string, c: string)
    ensures Join([a, b, c], ' ') == a + " " + b + " " + c
  {
    hide Join;
    JoinOne(c, ' ');
    JoinFirst(b, [c], ' ');
    JoinFirst(a, [b, c], ' ');
    assert [b] + [c] == [b, c] && [a] + [b, c] == [a, b, c];
    assert a + " " + (b + " " + c) == a + " " + b + " " + c;
  }

  lemma ThreeFields(a: string, b: string, c: string)
    requires ' ' !in a && ' ' !in b && ' ' !in c
    ensures Split(a + " " + b + " " + c, ' ') == [a, b, c]
  {
    hide Join, Split;
    JoinThree(a, b, c);
    SplitIs([a, b, c], a + " " + b + " " + c, ' ');
  }

  lemma OneRange(sign: char, start: nat, length: nat)
    requires sign == '-' || sign == '+'
    ensures ReadHeader("@@" + " " + Range(sign, start, length) + " " + "@@") ==
            Some(if sign == '-' then (Some((start, length)), None) else (None, Some((start, length))))
  {
    hide Split, ReadRange, Range;
    RangeHasNoSpace(sign, start, length);
    ThreeFields("@@", Range(sign, start, length), "@@");
    RangeReadsBack(sign, start, length);
    OtherSign(start, length);
  }

  lemma FourFields(a: string, b: string, c: string, d: string)
    requires ' ' !in a && ' ' !in b && ' ' !in c && ' ' !in d
    ensures Split(a + " " + b + " " + c + " " + d, ' ') == [a, b, c, d]
  {
    hide Join, Split;
    JoinThree(b, c, d);
    JoinFirst(a, [b, c, d], ' ');
    assert [a] + [b, c, d] == [a, b, c, d];
    assert a + " " + (b + " " + c + " " + d) == a + " " + b + " " + c + " " + d;
    SplitIs([a, b, c, d], a + " " + b + " " + c + " " + d, ' ');
  }

  lemma TwoRanges(start: nat, length: nat, start': nat, length': nat)
    ensures ReadHeader("@@" + " " + Range('-', start, length) + " " + Range('+', start', length') + " " + "@@") ==
            Some((Some((start, length)), Some((start', length'))))
  {
    hide Split, ReadRange, Range;
    RangeHasNoSpace('-', start, length);
    RangeHasNoSpace('+', start', length');
    FourFields("@@", Range('-', start, length), Range('+', start', length'), "@@");
    RangeReadsBack('-', start, length);
    RangeReadsBack('+', start', length');
  }

  // The header tells where each side that has edits starts and how long it is.
  lemma HeaderReadsBack(h: PrintedHunk)
    requires h.adds + h.removes > 0
    ensures ReadHeader(HeaderLine(h)) == Some((LeftRange(h), RightRange(h)))
  {
    hide Range, ReadRange, Header, HeaderLine, ReadHeader;
    HeaderLineIs(h);
    if h.removes > 0 && h.adds > 0 {
      TwoRanges(h.leftStart, h.removes + h.common, h.rightStart, h.adds + h.common);
    } else if h.removes > 0 {
      OneRange('-', h.leftStart, h.removes + h.common);
    } else {
      OneRange('+', h.rightStart, h.adds + h.common);
    }
  }

  // A header is one line, and cannot be taken for a line of a file.
  lemma HeaderIsOneLine(h: PrintedHunk)
    requires h.adds + h.removes > 0
    ensures '\n' !in HeaderLine(h) && HeaderLine(h) != "" && HeaderLine(h)[0] == '@'
  {
    hide Range, Header, HeaderLine;
    HeaderLineIs(h);
    RangeHasNoSpace('-', h.leftStart, h.removes + h.common);
    RangeHasNoSpace('+', h.rightStart, h.adds + h.common);
  }

  // ---------------------------------------------------------------- reading the hunks

  // A hunk as the text shows it: the range of a side without edits is missing.
  datatype TextHunk = TextHunk(left: Option<(nat, nat)>, right: Option<(nat, nat)>, lines: seq<Line>)

  predicate IsTag(c: char) { c == ' ' || c == '-' || c == '+' }

  // Reads the lines of a diff from the last one back; `body` holds the lines of
  // the hunk whose header has not been met yet.
  function ReadLines(lines: seq<string>, body: seq<Line>): Option<seq<TextHunk>> {
    if lines == [] then (if body == [] then Some([]) else None)
    else
      var init, last := lines[..|lines| - 1], lines[|lines| - 1];
      if last != "" && IsTag(last[0]) then ReadLines(init, [Line(last[0], last[1..])] + body)
      else
        match ReadHeader(last)
        case None => None
        case Some((l, r)) =>
          match ReadLines(init, [])
          case None => None
          case Some(hunks) => Some(hunks + [TextHunk(l, r, body)])
  }

  function ReadDiff(text: string): Option<seq<TextHunk>> {
    var lines := Split(text, '\n');
    if lines[|lines| - 1] == "" then ReadLines(lines[..|lines| - 1], []) else None
  }

  function AsText(h: PrintedHunk): TextHunk {
    TextHunk(LeftRange(h), RightRange(h), h.lines)
  }

  function AllAsText(hunks: seq<PrintedHunk>): (ts: seq<TextHunk>)
    ensures |ts| == |hunks| && forall k :: 0 <= k < |hunks| ==> ts[k] == AsText(hunks[k])
  {
    seq(|hunks|, k requires 0 <= k < |hunks| => AsText(hunks[k]))
  }

  function TextLine(line: Line): string { [line.tag] + line.text }

  function BodyLines(lines: seq<Line>): seq<string> {
    if lines == [] then [] else BodyLines(lines[..|lines| - 1]) + [TextLine(lines[|lines| - 1])]
  }

  // The text of the hunks, line by line.
  function DiffLines(hunks: seq<PrintedHunk>): seq<string> {
    if hunks == [] then []
    else
      var last := hunks[|hunks| - 1];
      DiffLines(hunks[..|hunks| - 1]) + [HeaderLine(last)] + BodyLines(last.lines)
  }

  // A hunk whose text can be read back.
  ghost predicate Readable(h: PrintedHunk) {
    && h.adds + h.removes > 0
    && forall k :: 0 <= k < |h.lines| ==> IsTag(h.lines[k].tag) && Clean(h.lines[k].text)
  }

  ghost predicate AllReadable(hunks: seq<PrintedHunk>) {
    forall k :: 0 <= k < |hunks| ==> Readable(hunks[k])
  }

  lemma {:induction false} CleanPrintsWhole(text: string)
    requires Clean(text)
    ensures CText(text) == text
  {
    if text == "" {
    } else {
      CleanPrintsWhole(text[1..]);
      assert text == [text[0]] + text[1..];
    }
  }

  lemma UnlinesOfNothing()
    ensures Unlines([]) == ""
  {
  }

  lemma {:induction false} BodyText(lines: seq<Line>)
    requires forall k :: 0 <= k < |lines| ==> IsTag(lines[k].tag) && Clean(lines[k].text)
    ensures RenderLines(lines) == Unlines(BodyLines(lines))
    ensures forall k :: 0 <= k < |BodyLines(lines)| ==> '\n' !in BodyLines(lines)[k]
  {
    hide Unlines;
    if lines == [] {
      assert Unlines([]) == "" by { UnlinesOfNothing(); }
    } else {
      var init, last := lines[..|lines| - 1], lines[|lines| - 1];
      BodyText(init);
      CleanPrintsWhole(last.text);
      UnlinesAppend(BodyLines(init), TextLine(last));
      assert RenderLine(last) == TextLine(last) + "\n";
      assert Unlines(BodyLines(init)) + (TextLine(last) + "\n") == Unlines(BodyLines(init)) + TextLine(last) + "\n";
    }
  }

  lemma {:induction false} DiffTextIsLines(hunks: seq<PrintedHunk>)
    requires AllReadable(hunks)
    ensures RenderAll(hunks) == Unlines(DiffLines(hunks))
    ensures forall k :: 0 <= k < |DiffLines(hunks)| ==> '\n' !in DiffLines(hunks)[k]
  {
    hide Unlines, HeaderLine, Header, RenderLines, BodyLines, Clean;
    if hunks == [] {
      UnlinesOfNothing();
    } else {
      var init, last := hunks[..|hunks| - 1], hunks[|hunks| - 1];
      DiffTextIsLines(init);
      assert Readable(last);
      BodyText(last.lines);
      HeaderLineIs(last);
      HeaderIsOneLine(last);
      UnlinesAppend(DiffLines(init), HeaderLine(last));
      UnlinesConcat(DiffLines(init) + [HeaderLine(last)], BodyLines(last.lines));
      Regroup(RenderAll(init), HeaderLine(last), "\n", RenderLines(last.lines));
    }
  }

  lemma BodyLinesStep(lines: seq<Line>)
    requires lines != []
    ensures BodyLines(lines) == BodyLines(lines[..|lines| - 1]) + [TextLine(lines[|lines| - 1])]
  {
  }

  lemma ReadBodyLine(init: seq<string>, lines: seq<string>, last: Line, body: seq<Line>)
    requires lines == init + [TextLine(last)] && IsTag(last.tag)
    ensures ReadLines(lines, body) == ReadLines(init, [last] + body)
  {
    assert lines[..|lines| - 1] == init;
    assert TextLine(last)[1..] == last.text;
  }

  lemma {:induction false} ReadBody(before: seq<string>, lines: seq<Line>, body: seq<Line>)
    requires forall k :: 0 <= k < |lines| ==> IsTag(lines[k].tag)
    ensures ReadLines(before + BodyLines(lines), body) == ReadLines(before, lines + body)
  {
    if lines == [] {
      assert before + BodyLines(lines) == before && lines + body == body;
    } else {
      var init, last := lines[..|lines| - 1], lines[|lines| - 1];
      ReadBody(before, init, [last] + body);
      assert init + ([last] + body) == lines + body;
      hide BodyLines;
      assert BodyLines(lines) == BodyLines(init) + [TextLine(last)] by { BodyLinesStep(lines); }
      ReadBodyLine(before + BodyLines(init), before + BodyLines(lines), last, body);
    }
  }

  lemma ReadHeaderLine(init: seq<string>, h: PrintedHunk, body: seq<Line>)
    requires h.adds + h.removes > 0 && ReadLines(init, []).Some?
    ensures ReadLines(init + [HeaderLine(h)], body) ==
            Some(ReadLines(init, []).value + [TextHunk(LeftRange(h), RightRange(h), body)])
  {
    hide HeaderLine, ReadHeader, LeftRange, RightRange;
    HeaderIsOneLine(h);
    HeaderReadsBack(h);
    assert (init + [HeaderLine(h)])[..|init|] == init;
  }

  lemma ReadNothing()
    ensures ReadLines([], []) == Some([])
  {
  }

  lemma {:induction false} DiffLinesReadBack(hunks: seq<PrintedHunk>)
    requires AllReadable(hunks)
    ensures ReadLines(DiffLines(hunks), []) == Some(AllAsText(hunks))
  {
    hide ReadLines, HeaderLine, BodyLines;
    if hunks == [] {
      assert ReadLines([], []) == Some([]) by { ReadNothing(); }
    } else {
      var init, last := hunks[..|hunks| - 1], hunks[|hunks| - 1];
      DiffLinesReadBack(init);
      assert Readable(last);
      ReadBody(DiffLines(init) + [HeaderLine(last)], last.lines, []);
      assert last.lines + [] == last.lines;
      ReadHeaderLine(DiffLines(init), last, last.lines);
      assert AllAsText(hunks) == AllAsText(init) + [AsText(last)];
    }
  }

  // The hunks are read back from their text, but for the ranges not printed.
  lemma TextReadsBack(hunks: seq<PrintedHunk>)
    requires AllReadable(hunks)
    ensures ReadDiff(RenderAll(hunks)) == Some(AllAsText(hunks))
  {
    hide RenderAll, DiffLines, ReadLines, Split, Unlines;
    DiffTextIsLines(hunks);
    LinesSplit(DiffLines(hunks));
    assert (DiffLines(hunks) + [""])[..|DiffLines(hunks)|] == DiffLines(hunks);
    DiffLinesReadBack(hunks);
  }

  // ---------------------------------------------------------------- patching with the text alone

  // The range and the lines a hunk expects, and those it puts in their place.
  function OldRange(t: TextHunk, backwards: bool): Option<(nat, nat)> {
    if backwards then t.right else t.left
  }

  function NewRange(t: TextHunk, backwards: bool): Option<(nat, nat)> {
    if backwards then t.left else t.right
  }

  function OldText(t: TextHunk, backwards: bool): seq<string> {
    if backwards then RightText(t.lines) else LeftText(t.lines)
  }

  function NewText(t: TextHunk, backwards: bool): seq<string> {
    if backwards then LeftText(t.lines) else RightText(t.lines)
  }

  // Where a hunk starts in the file (counting from 0).  A header without the range
  // for the file is placed by the other one: the lines copied before the hunk move
  // both sides.
  function StartOf(t: TextHunk, pos: nat, written: nat, backwards: bool): int {
    match OldRange(t, backwards)
    case Some((start, _)) => start - 1
    case None =>
      match NewRange(t, backwards)
      case Some((start, _)) => pos + (start - 1 - written)
      case None => -1
  }

  // A printed range has the length of the lines it stands for.
  predicate LengthFits(range: Option<(nat, nat)>, n: nat) {
    range.Some? ==> range.value.1 == n
  }

  // Copies file[pos..] to out, with the hunks applied in order.
  function PatchFrom(ts: seq<TextHunk>, file: seq<string>, pos: nat, out: seq<string>, backwards: bool): Option<seq<string>> {
    if ts == [] then
      if pos <= |file| then Some(out + file[pos..]) else None
    else
      var t, start := ts[0], StartOf(ts[0], pos, |out|, backwards);
      var expected, new_ := OldText(t, backwards), NewText(t, backwards);
      if pos <= start && start + |expected| <= |file| && file[start..start + |expected|] == expected
         && LengthFits(OldRange(t, backwards), |expected|) && LengthFits(NewRange(t, backwards), |new_|) then
        PatchFrom(ts[1..], file, start + |expected|, out + file[pos..start] + new_, backwards)
      else
        None
  }

  // Patching with one hunk that prints both ranges: the lines must stand where it says
  // and be as many as it says.
  lemma OneTextHunk(l: (nat, nat), r: (nat, nat), lines: seq<Line>, file: seq<string>, backwards: bool)
    ensures
      var start := (if backwards then r.0 else l.0) - 1;
      var gone := if backwards then RightText(lines) else LeftText(lines);
      var come := if backwards then LeftText(lines) else RightText(lines);
      PatchFrom([TextHunk(Some(l), Some(r), lines)], file, 0, [], backwards) ==
      if 0 <= start && start + |gone| <= |file| && file[start..start + |gone|] == gone
         && l.1 == |LeftText(lines)| && r.1 == |RightText(lines)| then
        Some(file[..start] + come + file[start + |gone|..])
      else None
  {
    hide LeftText, RightText;
    var t := TextHunk(Some(l), Some(r), lines);
    assert [t][1..] == [];
    var start := (if backwards then r.0 else l.0) - 1;
    assert StartOf(t, 0, 0, backwards) == start;
    if start >= 0 {
      assert start <= |file| ==> [] + file[0..start] == file[..start];
    }
  }

  // What patch makes of a file, given the text of a diff.
  function PatchWithText(text: string, file: seq<string>, backwards: bool): Option<seq<string>> {
    match ReadDiff(text)
    case None => None
    case Some(ts) => PatchFrom(ts, file, 0, [], backwards)
  }

  // A hunk whose lines count up to its two slices has only the three tags.
  lemma {:induction false} CountsMeanTags(lines: seq<Line>)
    ensures |LeftText(lines)| >= Tagged(lines, '-') + Tagged(lines, ' ')
    ensures |LeftText(lines)| == Tagged(lines, '-') + Tagged(lines, ' ') ==>
      forall k :: 0 <= k < |lines| ==> IsTag(lines[k].tag)
  {
    if lines == [] {
    } else {
      CountsMeanTags(lines[..|lines| - 1]);
    }
  }

  lemma AllCleanConcat(a: seq<string>, b: seq<string>)
    ensures AllClean(a + b) <==> AllClean(a) && AllClean(b)
  {
    hide Clean;
    if AllClean(a + b) {
      assert forall k :: 0 <= k < |a| ==> a[k] == (a + b)[k];
      assert forall k :: 0 <= k < |b| ==> b[k] == (a + b)[|a| + k];
    }
  }

  lemma CleanOne(text: string)
    ensures AllClean([text]) <==> Clean(text)
  {
    assert [text][0] == text;
  }

  // Clean files make clean hunks.
  lemma {:induction false} CleanLines(lines: seq<Line>)
    requires AllClean(LeftText(lines)) && AllClean(RightText(lines))
    ensures forall k :: 0 <= k < |lines| ==> Clean(lines[k].text)
  {
    hide LeftText, RightText, Clean, AllClean;
    if lines == [] {
    } else {
      var init, last := lines[..|lines| - 1], lines[|lines| - 1];
      assert lines == init + [last];
      AppendLine(init, last);
      AllCleanConcat(LeftText(init), if last.tag == '+' then [] else [last.text]);
      AllCleanConcat(RightText(init), if last.tag == '-' then [] else [last.text]);
      CleanOne(last.text);
      CleanLines(init);
    }
  }

  lemma ShownIsReadable(h: PrintedHunk, script: seq<EditType>, left: seq<string>, right: seq<string>, a: nat, b: nat)
    requires Aligns(script, left, right) && a <= b <= |script|
    requires Shows(h, script, left, right, a, b) && AllClean(left) && AllClean(right)
    ensures Readable(h)
    ensures LengthFits(LeftRange(h), |LeftText(h.lines)|) && LengthFits(RightRange(h), |RightText(h.lines)|)
  {
    hide LeftText, RightText, Tagged, Clean, IsTag, Matches;
    AtMonotone(script, a, b);
    AtMonotone(script, b, |script|);
    CountsMeanTags(h.lines);
    CleanLines(h.lines);
  }

  lemma AllShownAreReadable(script: seq<EditType>, left: seq<string>, right: seq<string>, context: nat,
                            spans: seq<Span>, hunks: seq<PrintedHunk>)
    requires Aligns(script, left, right) && IsDiff(script, left, right, context, spans, hunks, |script|)
    requires AllClean(left) && AllClean(right)
    ensures AllReadable(hunks)
  {
    hide Shows, AllClean, Readable, Clusters, LeftAt, RightAt;
    forall k | 0 <= k < |hunks|
      ensures Readable(hunks[k])
    {
      assert ShowsSpan(hunks[k], script, left, right, context, spans[k]);
      ShownIsReadable(hunks[k], script, left, right, ShownFrom(spans[k], context), ShownTo(spans[k], context, script));
    }
  }

  lemma ReadableHasEdits(h: PrintedHunk)
    requires Readable(h)
    ensures h.adds + h.removes > 0
  {
  }

  // Where the next hunk starts, from its text.
  lemma StartIsKnown(script: seq<EditType>, left: seq<string>, right: seq<string>, context: nat,
                     spans: seq<Span>, hunks: seq<PrintedHunk>, k: nat)
    requires Aligns(script, left, right) && IsDiff(script, left, right, context, spans, hunks, |script|)
    requires AllClean(left) && AllClean(right) && k < |hunks|
    ensures LeftEnd(hunks, k) >= 0 && RightEnd(hunks, k) >= 0
    ensures StartOf(AsText(hunks[k]), LeftEnd(hunks, k), RightEnd(hunks, k), false) == hunks[k].leftStart - 1
    ensures StartOf(AsText(hunks[k]), RightEnd(hunks, k), LeftEnd(hunks, k), true) == hunks[k].rightStart - 1
    ensures LengthFits(LeftRange(hunks[k]), |LeftText(hunks[k].lines)|)
    ensures LengthFits(RightRange(hunks[k]), |RightText(hunks[k].lines)|)
  {
    hide Shows, AllClean, Readable, Clusters, LeftAt, RightAt, LeftEnd, RightEnd, LeftText, RightText;
    HunksAreDisjoint(script, left, right, context, spans, hunks, k);
    assert |left[LeftEnd(hunks, k)..hunks[k].leftStart - 1]| == |right[RightEnd(hunks, k)..hunks[k].rightStart - 1]|;
    AllShownAreReadable(script, left, right, context, spans, hunks);
    assert Readable(hunks[k]);
    assert ShowsSpan(hunks[k], script, left, right, context, spans[k]);
    ShownIsReadable(hunks[k], script, left, right, ShownFrom(spans[k], context), ShownTo(spans[k], context, script));
    assert hunks[k].adds + hunks[k].removes > 0 by { ReadableHasEdits(hunks[k]); }
  }

  // Copying up to a hunk and putting its lines completes the other file that far.
  lemma Advance(left: seq<string>, right: seq<string>, l: nat, start: nat, l': nat, r: nat, start': nat, r': nat)
    requires l <= start <= l' <= |left| && r <= start' <= r' <= |right|
    requires left[l..start] == right[r..start']
    ensures right[..r] + left[l..start] + right[start'..r'] == right[..r']
    ensures left[..l] + right[r..start'] + left[start..l'] == left[..l']
  {
  }

  lemma PatchRest(file: seq<string>, pos: nat, out: seq<string>, backwards: bool)
    requires pos <= |file|
    ensures PatchFrom([], file, pos, out, backwards) == Some(out + file[pos..])
  {
  }

  lemma PatchOne(ts: seq<TextHunk>, file: seq<string>, pos: nat, out: seq<string>, start: nat, backwards: bool)
    requires ts != [] && StartOf(ts[0], pos, |out|, backwards) == start
    requires pos <= start && start + |OldText(ts[0], backwards)| <= |file|
    requires file[start..start + |OldText(ts[0], backwards)|] == OldText(ts[0], backwards)
    requires LengthFits(OldRange(ts[0], backwards), |OldText(ts[0], backwards)|)
    requires LengthFits(NewRange(ts[0], backwards), |NewText(ts[0], backwards)|)
    ensures PatchFrom(ts, file, pos, out, backwards) ==
            PatchFrom(ts[1..], file, start + |OldText(ts[0], backwards)|,
                      out + file[pos..start] + NewText(ts[0], backwards), backwards)
  {
    hide OldText, NewText, StartOf;
  }

  // After the last hunk both files go on alike.
  lemma RestIsEqual(script: seq<EditType>, left: seq<string>, right: seq<string>, context: nat,
                    spans: seq<Span>, hunks: seq<PrintedHunk>)
    requires Aligns(script, left, right) && IsDiff(script, left, right, context, spans, hunks, |script|)
    ensures 0 <= LeftEnd(hunks, |hunks|) <= |left| && 0 <= RightEnd(hunks, |hunks|) <= |right|
    ensures left[LeftEnd(hunks, |hunks|)..] == right[RightEnd(hunks, |hunks|)..]
  {
    hide Clusters, LeftAt, RightAt, LeftEnd, RightEnd, ShowsSpan, Apply;
    HunkEnds(script, left, right, context, spans, hunks, |hunks|);
    var e := ShownBefore(script, context, spans, |spans|);
    ApplyFrom(script, left, right, context, spans, hunks, |hunks|, false);
    assert hunks[|hunks|..] == [];
    ApplyNothing(left, LeftAt(script, e));
  }

  // From hunk k on the patch program completes the right file, or backwards the left one.
  lemma {:induction false} PatchCompletes(script: seq<EditType>, left: seq<string>, right: seq<string>, context: nat,
                                          spans: seq<Span>, hunks: seq<PrintedHunk>, k: nat)
    requires Aligns(script, left, right) && IsDiff(script, left, right, context, spans, hunks, |script|)
    requires AllClean(left) && AllClean(right) && k <= |hunks|
    ensures 0 <= LeftEnd(hunks, k) <= |left| && 0 <= RightEnd(hunks, k) <= |right|
    ensures PatchFrom(AllAsText(hunks)[k..], left, LeftEnd(hunks, k), right[..RightEnd(hunks, k)], false) == Some(right)
    ensures PatchFrom(AllAsText(hunks)[k..], right, RightEnd(hunks, k), left[..LeftEnd(hunks, k)], true) == Some(left)
    decreases |hunks| - k
  {
    hide IsDiff, AllClean, LeftAt, RightAt, LeftEnd, RightEnd, LeftText, RightText, PatchFrom, StartOf;
    assert 0 <= LeftEnd(hunks, k) <= |left| && 0 <= RightEnd(hunks, k) <= |right| by {
      HunkEnds(script, left, right, context, spans, hunks, k);
    }
    var l, r, ts := LeftEnd(hunks, k), RightEnd(hunks, k), AllAsText(hunks);
    if k == |hunks| {
      RestIsEqual(script, left, right, context, spans, hunks);
      assert ts[k..] == [];
      PatchRest(left, l, right[..r], false);
      PatchRest(right, r, left[..l], true);
      assert right[..r] + right[r..] == right && left[..l] + left[l..] == left;
    } else {
      StartIsKnown(script, left, right, context, spans, hunks, k);
      HunksAreDisjoint(script, left, right, context, spans, hunks, k);
      PatchCompletes(script, left, right, context, spans, hunks, k + 1);
      var l', r' := LeftEnd(hunks, k + 1), RightEnd(hunks, k + 1);
      assert ts[k..][0] == AsText(hunks[k]) && ts[k..][1..] == ts[k + 1..];
      Advance(left, right, l, hunks[k].leftStart - 1, l', r, hunks[k].rightStart - 1, r');
      PatchOne(ts[k..], left, l, right[..r], hunks[k].leftStart - 1, false);
      PatchOne(ts[k..], right, r, left[..l], hunks[k].rightStart - 1, true);
    }
  }

  // The printed text alone turns the left file into the right one, and back.
  lemma TextGivesRight(left: seq<string>, right: seq<string>, context: nat, spans: seq<Span>, hunks: seq<PrintedHunk>)
    requires Aligns(Script(left, right), left, right)
    requires IsDiff(Script(left, right), left, right, context, spans, hunks, |Script(left, right)|)
    requires AllClean(left) && AllClean(right)
    ensures PatchWithText(RenderAll(hunks), left, false) == Some(right)
    ensures PatchWithText(RenderAll(hunks), right, true) == Some(left)
  {
    hide Best, Path, IsDiff, AllClean, PatchFrom, RenderAll, ReadDiff;
    AllShownAreReadable(Script(left, right), left, right, context, spans, hunks);
    TextReadsBack(hunks);
    PatchCompletes(Script(left, right), left, right, context, spans, hunks, 0);
    assert AllAsText(hunks)[0..] == AllAsText(hunks) && right[..0] == [] && left[..0] == [];
  }

  lemma NoTextNoChange(file: seq<string>, backwards: bool)
    ensures PatchWithText("", file, backwards) == Some(file)
  {
    assert Split("", '\n') == [""];
    assert [""][..0] == [];
    ReadNothing();
    PatchRest(file, 0, [], backwards);
    assert [] + file[0..] == file;
  }

  // ---------------------------------------------------------------- an example

  lemma ExampleScript()
    ensures Script(["a", "b"], ["a", "c"]) == [Match, Replace]
  {
    hide Best, Path;
    var l, r := ["a", "b"], ["a", "c"];
    BorderCells(l, r);
    InnerCell(l, r, 0, 0);
    InnerCell(l, r, 1, 0);
    InnerCell(l, r, 0, 1);
    InnerCell(l, r, 1, 1);
    PathStep(l, r, 2, 2);
    PathStep(l, r, 1, 1);
    PathStep(l, r, 0, 0);
  }

  lemma {:induction false} TagsAddUp(lines: seq<Line>)
    requires forall k :: 0 <= k < |lines| ==> IsTag(lines[k].tag)
    ensures |lines| == Tagged(lines, ' ') + Tagged(lines, '-') + Tagged(lines, '+')
  {
    if lines == [] {
    } else {
      TagsAddUp(lines[..|lines| - 1]);
    }
  }

  // What each line adds to the files and the counts.
  function ToLeft(line: Line): seq<string> { if line.tag == '+' then [] else [line.text] }
  function ToRight(line: Line): seq<string> { if line.tag == '-' then [] else [line.text] }

  lemma NoLines()
    ensures LeftText([]) == [] && RightText([]) == [] && forall tag :: Tagged([], tag) == 0
  {
  }

  lemma TwoLines(x: Line, y: Line)
    ensures LeftText([x, y]) == ToLeft(x) + ToLeft(y) && RightText([x, y]) == ToRight(x) + ToRight(y)
    ensures forall tag :: Tagged([x, y], tag) == (if x.tag == tag then 1 else 0) + if y.tag == tag then 1 else 0
  {
    hide LeftText, RightText, Tagged;
    NoLines();
    assert [] + [x] == [x] && [x] + [y] == [x, y];
    AppendLine([], x);
    AppendLine([x], y);
  }

  lemma ThreeLines(x: Line, y: Line, z: Line)
    ensures LeftText([x, y, z]) == ToLeft(x) + ToLeft(y) + ToLeft(z)
    ensures RightText([x, y, z]) == ToRight(x) + ToRight(y) + ToRight(z)
    ensures Tagged([x, y, z], ' ') == 1 && Tagged([x, y, z], '-') == 1 && Tagged([x, y, z], '+') == 1 ==>
      x.tag != y.tag && y.tag != z.tag && x.tag != z.tag
  {
    hide LeftText, RightText, Tagged;
    TwoLines(x, y);
    assert [x, y] + [z] == [x, y, z];
    AppendLine([x, y], z);
  }

  lemma InGroups(x: Line, y: Line, z: Line)
    requires Grouped([x, y, z])
    ensures (x.tag == '+' ==> y.tag != '-') && (y.tag == '+' ==> z.tag != '-')
  {
    assert [x, y, z][0] == x && [x, y, z][1] == y && [x, y, z][2] == z;
  }

  lemma ExampleLines(lines: seq<Line>)
    requires LeftText(lines) == ["a", "b"] && RightText(lines) == ["a", "c"] && Grouped(lines)
    requires Tagged(lines, ' ') == Tagged(lines, '-') == Tagged(lines, '+') == 1
    ensures lines == [Line(' ', "a"), Line('-', "b"), Line('+', "c")]
  {
    hide LeftText, RightText, Tagged;
    CountsMeanTags(lines);
    TagsAddUp(lines);
    var x, y, z := lines[0], lines[1], lines[2];
    assert lines == [x, y, z];
    ThreeLines(x, y, z);
    assert IsTag(x.tag) && IsTag(y.tag) && IsTag(z.tag);
    var l, r := ToLeft(x) + ToLeft(y) + ToLeft(z), ToRight(x) + ToRight(y) + ToRight(z);
    assert l[0] == "a" && l[1] == "b" && r[0] == "a" && r[1] == "c";
    InGroups(x, y, z);
  }

  lemma SpanBounds(script: seq<EditType>, context: nat, spans: seq<Span>, k: nat)
    requires Clusters(script, context, spans, |script|) && k < |spans|
    ensures spans[k].first <= spans[k].last < |script| && script[spans[k].first] != Match
    ensures k > 0 ==> spans[k - 1].last + 1 + 2 * context <= spans[k].first
  {
    assert SpanPlaced(script, context, spans, k);
  }

  // One hunk around the one edit.
  lemma ExampleSpans(spans: seq<Span>)
    requires Clusters([Match, Replace], 1, spans, 2)
    ensures spans == [Span(1, 1)]
  {
    assert [Match, Replace][1] != Match;
    if spans != [] {
      SpanBounds([Match, Replace], 1, spans, 0);
      if |spans| > 1 {
        SpanBounds([Match, Replace], 1, spans, 1);
      }
    }
  }

  lemma ExampleHeader(h: PrintedHunk)
    requires h.leftStart == h.rightStart == 1 && h.adds == h.removes == h.common == 1
    ensures Header(h) == "@@ -1,2 +1,2 @@\n"
  {
    HeaderText(h);
    hide Header;
    assert Numeral(1) == "1" && Numeral(2) == "2";
  }

  lemma ExampleTexts()
    ensures RenderLine(Line(' ', "a")) == " a\n"
    ensures RenderLine(Line('-', "b")) == "-b\n"
    ensures RenderLine(Line('+', "c")) == "+c\n"
  {
    hide RenderLine;
    LineText(' ', "a", "");
    LineText('-', "b", "");
    LineText('+', "c", "");
  }

  lemma ExampleBody(lines: seq<Line>)
    requires lines == [Line(' ', "a"), Line('-', "b"), Line('+', "c")]
    ensures RenderLines(lines) == " a\n-b\n+c\n"
  {
    hide RenderLine, RenderLines;
    ExampleTexts();
    RenderStep(lines, 0);
    RenderStep(lines, 1);
    assert RenderLines(lines[..1]) == " a\n";
    RenderStep(lines, 2);
    assert RenderLines(lines[..2]) == " a\n-b\n";
    RenderStep(lines, 3);
    assert lines[..3] == lines;
  }

  lemma ExampleRendering(h: PrintedHunk)
    requires h == PrintedHunk(1, 1, 1, 1, 1, [Line(' ', "a"), Line('-', "b"), Line('+', "c")])
    ensures RenderAll([h]) == "@@ -1,2 +1,2 @@\n a\n-b\n+c\n"
  {
    ExampleHeader(h);
    ExampleBody(h.lines);
    hide RenderLines, Header;
    assert [h][..0] == [];
  }

  // The whole text for two files of two lines that differ in the second.
  lemma DiffExample(spans: seq<Span>, hunks: seq<PrintedHunk>)
    requires Aligns(Script(["a", "b"], ["a", "c"]), ["a", "b"], ["a", "c"])
    requires IsDiff(Script(["a", "b"], ["a", "c"]), ["a", "b"], ["a", "c"], 1, spans, hunks,
                    |Script(["a", "b"], ["a", "c"])|)
    ensures RenderAll(hunks) == "@@ -1,2 +1,2 @@\n a\n-b\n+c\n"
  {
    hide Script, RenderAll, LeftText, RightText, Tagged;
    ExampleScript();
    ExampleSpans(spans);
    var h := hunks[0];
    assert ShowsSpan(h, [Match, Replace], ["a", "b"], ["a", "c"], 1, spans[0]);
    assert LeftAt([Match, Replace], 0) == 0 && LeftAt([Match, Replace], 2) == 2;
    assert RightAt([Match, Replace], 0) == 0 && RightAt([Match, Replace], 2) == 2;
    assert LeftText(h.lines) == ["a", "b"][0..2] == ["a", "b"] && RightText(h.lines) == ["a", "c"][0..2] == ["a", "c"];
    assert Matches([Match, Replace], 0, 2) == 1;
    ExampleLines(h.lines);
    ExampleRendering(h);
    assert hunks == [h];
  }

  // ---------------------------------------------------------------- the whole diff

  // The diff is faithful exactly when there is some context, or nothing to say.
  method DiffFiles(left: seq<string>, right: seq<string>, context: nat) returns (text: string, hunks: seq<PrintedHunk>)
    ensures Apply(hunks, left, 0, false) == Some(right) <==> context >= 1 || left == right
    ensures Apply(hunks, right, 0, true) == Some(left) <==> context >= 1 || left == right
    ensures text == RenderAll(hunks)
    ensures context >= 1 ==> (hunks == [] <==> left == right)
    ensures AllClean(left) && AllClean(right) ==>
      (PatchWithText(text, left, false) == Some(right) <==> context >= 1 || left == right)
    ensures AllClean(left) && AllClean(right) ==>
      (PatchWithText(text, right, true) == Some(left) <==> context >= 1 || left == right)
  {
    hide Best, Path, IsDiff, Apply, Clusters, PatchWithText, AllClean;
    ghost var spans;
    text, hunks, spans := CreateUnifiedDiff(left, right, context);
    if context >= 1 {
      ApplyGivesRight(left, right, context, spans, hunks);
      NoHunksIffEqual(left, right, context, spans, hunks);
      if AllClean(left) && AllClean(right) {
        TextGivesRight(left, right, context, spans, hunks);
      }
    } else {
      NoTextNoChange(left, false);
      NoTextNoChange(right, true);
      ApplyNothing(left, 0);
      ApplyNothing(right, 0);
      assert left[0..] == left && right[0..] == right;
    }
  }
}
