// One hunk of a unified diff: it collects lines, groups removals before
// additions, and prints itself with a header.
module DiffHunk {
  import opened Decimal

  datatype Line = Line(tag: char, text: string)

  // A hunk as printed: where it starts on each side (counting from 1), how many
  // lines of each kind it has, and the lines.
  datatype PrintedHunk = PrintedHunk(leftStart: nat, rightStart: nat,
                                     adds: nat, removes: nat, common: nat, lines: seq<Line>)

  // The lines that belong to the left (right) file.
  function LeftText(lines: seq<Line>): seq<string> {
    if lines == [] then []
    else
      var last := lines[|lines| - 1];
      LeftText(lines[..|lines| - 1]) + (if last.tag == '+' then [] else [last.text])
  }

  function RightText(lines: seq<Line>): seq<string> {
    if lines == [] then []
    else
      var last := lines[|lines| - 1];
      RightText(lines[..|lines| - 1]) + (if last.tag == '-' then [] else [last.text])
  }

  function Tagged(lines: seq<Line>, tag: char): nat {
    if lines == [] then 0
    else Tagged(lines[..|lines| - 1], tag) + (if lines[|lines| - 1].tag == tag then 1 else 0)
  }

  function Texts(lines: seq<Line>): seq<string> {
    seq(|lines|, k requires 0 <= k < |lines| => lines[k].text)
  }

  ghost predicate AllTagged(lines: seq<Line>, tag: char) {
    forall k :: 0 <= k < |lines| ==> lines[k].tag == tag
  }

  // No added line stands directly before a removed one.
  ghost predicate Grouped(lines: seq<Line>) {
    forall k :: 0 < k < |lines| ==> !(lines[k - 1].tag == '+' && lines[k].tag == '-')
  }

  lemma AppendLine(lines: seq<Line>, line: Line)
    ensures LeftText(lines + [line]) == LeftText(lines) + (if line.tag == '+' then [] else [line.text])
    ensures RightText(lines + [line]) == RightText(lines) + (if line.tag == '-' then [] else [line.text])
    ensures forall tag :: Tagged(lines + [line], tag) == Tagged(lines, tag) + (if line.tag == tag then 1 else 0)
  {
    assert (lines + [line])[..|lines|] == lines;
  }

  lemma {:induction false} AppendRemovals(lines: seq<Line>, more: seq<Line>)
    requires AllTagged(more, '-')
    ensures LeftText(lines + more) == LeftText(lines) + Texts(more)
    ensures RightText(lines + more) == RightText(lines)
    ensures Tagged(lines + more, '-') == Tagged(lines, '-') + |more|
    ensures Tagged(lines + more, '+') == Tagged(lines, '+')
    ensures Tagged(lines + more, ' ') == Tagged(lines, ' ')
  {
    hide LeftText, RightText, Tagged;
    if more == [] {
      assert lines + more == lines;
    } else {
      var init, last := more[..|more| - 1], more[|more| - 1];
      AppendRemovals(lines, init);
      AppendLine(lines + init, last);
      assert lines + more == (lines + init) + [last];
      assert Texts(more) == Texts(init) + [last.text];
    }
  }

  lemma {:induction false} AppendAdditions(lines: seq<Line>, more: seq<Line>)
    requires AllTagged(more, '+')
    ensures RightText(lines + more) == RightText(lines) + Texts(more)
    ensures LeftText(lines + more) == LeftText(lines)
    ensures Tagged(lines + more, '+') == Tagged(lines, '+') + |more|
    ensures Tagged(lines + more, '-') == Tagged(lines, '-')
    ensures Tagged(lines + more, ' ') == Tagged(lines, ' ')
  {
    hide LeftText, RightText, Tagged;
    if more == [] {
      assert lines + more == lines;
    } else {
      var init, last := more[..|more| - 1], more[|more| - 1];
      AppendAdditions(lines, init);
      AppendLine(lines + init, last);
      assert lines + more == (lines + init) + [last];
      assert Texts(more) == Texts(init) + [last.text];
    }
  }

  // ---------------------------------------------------------------- text

  // What streaming a C string prints: everything before the first NUL.
  function CText(s: string): string {
    if s == [] || s[0] == '\0' then [] else [s[0]] + CText(s[1..])
  }

  function Range(sign: char, start: nat, length: nat): string {
    [sign] + Numeral(start) + "," + Numeral(length)
  }

  // A side without changes is left out of the header.
  function Header(h: PrintedHunk): string {
    "@@ "
    + (if h.removes > 0 then Range('-', h.leftStart, h.removes + h.common) else "")
    + (if h.removes > 0 && h.adds > 0 then " " else "")
    + (if h.adds > 0 then Range('+', h.rightStart, h.adds + h.common) else "")
    + " @@\n"
  }

  function RenderLine(line: Line): string {
    [line.tag] + CText(line.text) + "\n"
  }

  function RenderLines(lines: seq<Line>): string {
    if lines == [] then "" else RenderLines(lines[..|lines| - 1]) + RenderLine(lines[|lines| - 1])
  }

  function Render(h: PrintedHunk): string {
    Header(h) + RenderLines(h.lines)
  }

  // The header as it is read: the ranges of the files with changes, in this order.
  lemma HeaderText(h: PrintedHunk)
    ensures
      var leftRange := "-" + Numeral(h.leftStart) + "," + Numeral(h.removes + h.common);
      var rightRange := "+" + Numeral(h.rightStart) + "," + Numeral(h.adds + h.common);
      && (h.removes > 0 && h.adds > 0 ==> Header(h) == "@@ " + leftRange + " " + rightRange + " @@\n")
      && (h.removes > 0 && h.adds == 0 ==> Header(h) == "@@ " + leftRange + " @@\n")
      && (h.removes == 0 && h.adds > 0 ==> Header(h) == "@@ " + rightRange + " @@\n")
  {
  }

  // What the tags in front of the lines say about the two files.
  lemma TagsMean(lines: seq<Line>, text: string)
    ensures LeftText(lines + [Line('-', text)]) == LeftText(lines) + [text]
    ensures RightText(lines + [Line('-', text)]) == RightText(lines)
    ensures LeftText(lines + [Line('+', text)]) == LeftText(lines)
    ensures RightText(lines + [Line('+', text)]) == RightText(lines) + [text]
    ensures LeftText(lines + [Line(' ', text)]) == LeftText(lines) + [text]
    ensures RightText(lines + [Line(' ', text)]) == RightText(lines) + [text]
  {
  }

  // A line is printed behind its tag, up to a NUL if it has one.
  lemma {:induction false} LineText(tag: char, text: string, rest: string)
    requires '\0' !in text
    ensures CText(text) == CText(text + "\0" + rest) == text
    ensures RenderLine(Line(tag, text)) == RenderLine(Line(tag, text + "\0" + rest)) == [tag] + text + "\n"
  {
    if text == "" {
    } else {
      LineText(tag, text[1..], rest);
      assert (text + "\0" + rest)[1..] == text[1..] + "\0" + rest;
    }
  }

  lemma RenderStep(lines: seq<Line>, k: nat)
    requires k <= |lines|
    ensures RenderLines(lines[..k]) == if k == 0 then "" else RenderLines(lines[..k - 1]) + RenderLine(lines[k - 1])
  {
    if k > 0 {
      assert lines[..k][..k - 1] == lines[..k - 1];
    }
  }

  class Hunk {
    const leftStart: nat
    const rightStart: nat
    var adds: nat
    var removes: nat
    var common: nat
    var hunk: seq<Line>
    var hunkAdds: seq<Line>
    var hunkRemoves: seq<Line>

    // The pending lists and the counts of edits agree with the lines flushed.
    ghost predicate EditsValid()
      reads this
    {
      && AllTagged(hunkAdds, '+') && AllTagged(hunkRemoves, '-')
      && adds == Tagged(hunk, '+') + |hunkAdds|
      && removes == Tagged(hunk, '-') + |hunkRemoves|
      && Grouped(hunk)
      && (hunk != [] && (hunkAdds != [] || hunkRemoves != []) ==> hunk[|hunk| - 1].tag == ' ')
    }

    ghost predicate Valid()
      reads this
    {
      EditsValid() && common == Tagged(hunk, ' ')
    }

    // Still being filled: whatever was flushed ends with a common line.
    ghost predicate Open()
      reads this
    {
      Valid() && (hunk != [] ==> hunk[|hunk| - 1].tag == ' ')
    }

    // The lines of each file pushed so far, in order.
    ghost function Left(): seq<string>
      reads this
    {
      LeftText(hunk) + Texts(hunkRemoves)
    }

    ghost function Right(): seq<string>
      reads this
    {
      RightText(hunk) + Texts(hunkAdds)
    }

    constructor (leftStart: nat, rightStart: nat)
      ensures this.leftStart == leftStart && this.rightStart == rightStart
      ensures Open() && Left() == [] && Right() == []
      ensures adds == removes == common == 0
    {
      this.leftStart, this.rightStart := leftStart, rightStart;
      adds, removes, common := 0, 0, 0;
      hunk, hunkAdds, hunkRemoves := [], [], [];
    }

    method FlushEdits()
      requires EditsValid()
      modifies `hunk, `hunkAdds, `hunkRemoves
      ensures EditsValid() && hunkAdds == [] && hunkRemoves == []
      ensures Tagged(hunk, ' ') == old(Tagged(hunk, ' '))
      ensures hunk == old(hunk + hunkRemoves + hunkAdds)
      ensures Left() == old(Left()) && Right() == old(Right())
    {
      hide LeftText, RightText, Tagged;
      AppendRemovals(hunk, hunkRemoves);
      AppendAdditions(hunk + hunkRemoves, hunkAdds);
      hunk, hunkRemoves := hunk + hunkRemoves, [];
      hunk, hunkAdds := hunk + hunkAdds, [];
    }

    method PushLine(edit: char, line: string)
      requires Open()
      modifies this
      ensures Open()
      ensures edit in " -+" ==> Left() == (if edit == '+' then old(Left()) else old(Left()) + [line])
      ensures edit in " -+" ==> Right() == (if edit == '-' then old(Right()) else old(Right()) + [line])
      ensures edit !in " -+" ==> Left() == old(Left()) && Right() == old(Right())
      ensures common == old(common) + (if edit == ' ' then 1 else 0)
      ensures removes == old(removes) + (if edit == '-' then 1 else 0)
      ensures adds == old(adds) + (if edit == '+' then 1 else 0)
    {
      hide LeftText, RightText, Tagged;
      if edit == ' ' {
        common := common + 1;
        FlushEdits();
        AppendLine(hunk, Line(' ', line));
        hunk := hunk + [Line(' ', line)];
      } else if edit == '-' {
        removes := removes + 1;
        hunkRemoves := hunkRemoves + [Line('-', line)];
      } else if edit == '+' {
        adds := adds + 1;
        hunkAdds := hunkAdds + [Line('+', line)];
      }
    }

    predicate HasEdits()
      reads this
    {
      adds > 0 || removes > 0
    }

    function Printed(): PrintedHunk
      reads this
    {
      PrintedHunk(leftStart, rightStart, adds, removes, common, hunk + hunkRemoves + hunkAdds)
    }

    method PrintTo() returns (out: string)
      requires Valid()
      modifies `hunk, `hunkAdds, `hunkRemoves
      ensures out == Render(old(Printed()))
      ensures Printed() == old(Printed()) && Valid()
      ensures Left() == old(Left()) == LeftText(Printed().lines)
      ensures Right() == old(Right()) == RightText(Printed().lines)
      ensures Grouped(Printed().lines)
      ensures Tagged(Printed().lines, '-') == removes && Tagged(Printed().lines, '+') == adds
      ensures Tagged(Printed().lines, ' ') == common
      ensures adds == old(adds) && removes == old(removes) && common == old(common)
    {
      hide LeftText, RightText, Tagged, Header, RenderLine, RenderLines;
      out := PrintHeader();
      FlushEdits();
      assert hunk == Printed().lines;
      ghost var header := out;
      RenderStep(hunk, 0);
      for i := 0 to |hunk|
        invariant out == header + RenderLines(hunk[..i])
        modifies {}
      {
        RenderStep(hunk, i + 1);
        out := out + RenderLine(hunk[i]);
      }
      assert hunk[..|hunk|] == hunk;
    }

    method PrintHeader() returns (out: string)
      ensures out == Header(Printed())
    {
      out := "@@ ";
      if removes > 0 {
        out := out + Range('-', leftStart, removes + common);
      }
      if removes > 0 && adds > 0 {
        out := out + " ";
      }
      if adds > 0 {
        out := out + Range('+', rightStart, adds + common);
      }
      out := out + " @@\n";
    }
  }
}
