// What the patterns of one atom stand for, character by character.
module RegexClasses {
  import opened RegexSyntax
  import opened RegexMatch
  import opened Prelude

  // The pattern is valid and matches the whole of s.
  ghost predicate Accepts(pattern: string, s: string) {
    Parse(pattern).Some? && FullMatches(Parse(pattern).value, s)
  }

  function OnePiece(atom: Atom, repeat: Repeat): Regex {
    Regex(false, [Piece(atom, repeat)], false)
  }

  lemma PlainStart(atom: Atom, repeat: Repeat)
    requires ValidAtom(atom)
    ensures (UnparseAtom(atom) + UnparseRepeat(repeat))[0] != '^'
  {
  }

  lemma OneAtomParses(atom: Atom, repeat: Repeat)
    requires ValidAtom(atom)
    ensures Parse(UnparseAtom(atom) + UnparseRepeat(repeat)) == Some(OnePiece(atom, repeat))
  {
    hide Parse, ValidAtom;
    var piece := Piece(atom, repeat);
    assert UnparsePieces([piece], false) == UnparseAtom(atom) + UnparseRepeat(repeat) + UnparsePieces([], false);
    assert Unparse(OnePiece(atom, repeat)) == UnparseAtom(atom) + UnparseRepeat(repeat);
    PlainStart(atom, repeat);
    ParseIffUnparse(UnparseAtom(atom) + UnparseRepeat(repeat), OnePiece(atom, repeat));
  }

  lemma OneIsInPiece(piece: Piece, s: string)
    ensures InLanguage([piece], s) <==> InPiece(piece, s)
  {
    hide InPiece;
    assert [piece][1..] == [];
    assert s[..|s|] == s && s[|s|..] == "";
    if k :| 0 <= k <= |s| && InPiece(piece, s[..k]) && InLanguage([], s[k..]) {
      assert k == |s|;
    }
  }

  // One atom on one character.
  lemma OneAtom(atom: Atom, ch: char)
    requires ValidAtom(atom)
    ensures Accepts(UnparseAtom(atom), [ch]) <==> AtomMatchesChar(atom.escaped, atom.c, ch)
  {
    hide InLanguage, Parse, AtomMatchesChar, ValidAtom;
    OneAtomParses(atom, Once);
    assert UnparseAtom(atom) + "" == UnparseAtom(atom);
    var piece := Piece(atom, Once);
    OneIsInPiece(piece, "");
    OneIsInPiece(piece, [ch]);
    assert [ch][..0] == "" && [ch][..1] == [ch];
    assert [ch][0] == ch;
    assert !InPiece(piece, "") && InPiece(piece, [ch]) == AtomMatchesChar(atom.escaped, atom.c, ch);
    assert InLanguage([piece], [ch][..1]) == InLanguage([piece], [ch]);
    forall k | 0 <= k <= 1 && InLanguage([piece], [ch][..k])
      ensures k == 1
    {
    }
  }

  // The repetition marks, on any string: at most one, any number, at least one of the atom's characters.
  lemma Repetition(atom: Atom, s: string)
    requires ValidAtom(atom)
    ensures
      var each := forall k :: 0 <= k < |s| ==> Accepts(UnparseAtom(atom), [s[k]]);
      && (Accepts(UnparseAtom(atom) + "?", s) <==> |s| <= 1 && each)
      && (Accepts(UnparseAtom(atom) + "*", s) <==> each)
      && (Accepts(UnparseAtom(atom) + "+", s) <==> |s| >= 1 && each)
  {
    hide InLanguage, Parse, AtomMatchesChar, ValidAtom;
    OneAtomParses(atom, Optional);
    OneAtomParses(atom, Star);
    OneAtomParses(atom, Plus);
    OneIsInPiece(Piece(atom, Optional), s);
    OneIsInPiece(Piece(atom, Star), s);
    OneIsInPiece(Piece(atom, Plus), s);
    forall k | 0 <= k < |s|
      ensures Accepts(UnparseAtom(atom), [s[k]]) <==> AtomMatchesChar(atom.escaped, atom.c, s[k])
    {
      OneAtom(atom, s[k]);
    }
  }

  // ---------------------------------------------------------------- the classes

  lemma ClassOf(c: char, ch: char)
    requires c in "dDfnrsStvwW"
    ensures Accepts(['\\', c], [ch]) <==> AtomMatchesChar(true, c, ch)
  {
    hide Accepts, AtomMatchesChar;
    OneAtom(Atom(true, c), ch);
  }

  lemma Digits(ch: char)
    ensures Accepts("\\d", [ch]) <==> ch in "0123456789"
    ensures Accepts("\\D", [ch]) <==> ch !in "0123456789"
  {
    hide Accepts, IsAsciiPunct;
    ClassOf('d', ch);
    ClassOf('D', ch);
  }

  // Digits, capital letters, the underscore and small letters.
  lemma WordCharacters(ch: char)
    ensures
      var code := ch as int;
      var word := 48 <= code <= 57 || 65 <= code <= 90 || code == 95 || 97 <= code <= 122;
      (Accepts("\\w", [ch]) <==> word) && (Accepts("\\W", [ch]) <==> !word)
  {
    hide Accepts, IsAsciiPunct;
    ClassOf('w', ch);
    ClassOf('W', ch);
  }

  lemma WhiteSpace(ch: char)
    ensures Accepts("\\s", [ch]) <==> ch as int in {9, 10, 11, 12, 13, 32}
    ensures Accepts("\\S", [ch]) <==> ch as int !in {9, 10, 11, 12, 13, 32}
  {
    hide Accepts, IsAsciiPunct;
    ClassOf('s', ch);
    ClassOf('S', ch);
  }

  lemma ControlCharacters(ch: char)
    ensures Accepts("\\t", [ch]) <==> ch as int == 9
    ensures Accepts("\\n", [ch]) <==> ch as int == 10
    ensures Accepts("\\v", [ch]) <==> ch as int == 11
    ensures Accepts("\\f", [ch]) <==> ch as int == 12
    ensures Accepts("\\r", [ch]) <==> ch as int == 13
  {
    hide Accepts, IsAsciiPunct;
    ClassOf('t', ch);
    ClassOf('n', ch);
    ClassOf('v', ch);
    ClassOf('f', ch);
    ClassOf('r', ch);
  }

  // A graphic ASCII character that is neither a letter nor a digit.
  lemma Punctuation(c: char)
    ensures IsAsciiPunct(c) <==>
      && 33 <= c as int <= 126
      && !(48 <= c as int <= 57) && !(65 <= c as int <= 90) && !(97 <= c as int <= 122)
  {
  }

  lemma InvalidEscape(c: char)
    requires !IsValidEscape(c)
    ensures Parse(['\\', c]).None?
  {
    hide IsAsciiPunct;
  }

  // Nothing but punctuation and the letters of the classes may be escaped.
  lemma Escapes(c: char)
    ensures Parse(['\\', c]).Some? <==> IsAsciiPunct(c) || c in "dDfnrsStvwW"
  {
    hide Parse, IsAsciiPunct;
    if IsValidEscape(c) {
      OneAtomParses(Atom(true, c), Once);
      assert UnparseAtom(Atom(true, c)) + "" == UnparseAtom(Atom(true, c)) == ['\\', c];
    } else {
      InvalidEscape(c);
    }
  }

  // Escaped punctuation stands for itself.
  lemma EscapedPunctuation(c: char, ch: char)
    requires IsAsciiPunct(c)
    ensures Accepts(['\\', c], [ch]) <==> ch == c
  {
    hide Accepts, IsAsciiPunct;
    Punctuation(c);
    OneAtom(Atom(true, c), ch);
  }

  // A dot stands for every character but a newline; any other character that is not
  // special stands for itself.
  lemma PlainCharacters(c: char, ch: char)
    requires c !in "\0\\^$()[]{}|?*+"
    ensures Accepts([c], [ch]) <==> if c == '.' then ch as int != 10 else ch == c
  {
    hide Accepts;
    OneAtom(Atom(false, c), ch);
  }

  // Special characters are no patterns of their own; anchors alone match the empty string only.
  lemma SpecialCharacters(c: char, ch: char)
    ensures c in "\0\\()[]{}|?*+" ==> Parse([c]).None?
    ensures Accepts("^", "") && Accepts("$", "") && !Accepts("^", [ch]) && !Accepts("$", [ch])
  {
  }

  // ---------------------------------------------------------------- whole patterns

  lemma LanguageStep(pieces: seq<Piece>, s: string, k: nat)
    requires pieces != [] && k <= |s| && InPiece(pieces[0], s[..k]) && InLanguage(pieces[1..], s[k..])
    ensures InLanguage(pieces, s)
  {
  }

  lemma {:induction false} SequenceSplits(first: seq<Piece>, second: seq<Piece>, s: string) returns (k: nat)
    requires InLanguage(first + second, s)
    ensures k <= |s| && InLanguage(first, s[..k]) && InLanguage(second, s[k..])
  {
    hide InPiece;
    if first == [] {
      k := 0;
      assert first + second == second && s[0..] == s && s[..0] == "";
    } else {
      assert (first + second)[0] == first[0] && (first + second)[1..] == first[1..] + second;
      var i :| 0 <= i <= |s| && InPiece((first + second)[0], s[..i]) && InLanguage((first + second)[1..], s[i..]);
      hide InLanguage;
      var m := SequenceSplits(first[1..], second, s[i..]);
      k := i + m;
      assert s[..k][..i] == s[..i] && s[..k][i..] == s[i..][..m] && s[k..] == s[i..][m..];
      LanguageStep(first, s[..k], i);
    }
  }

  lemma {:induction false} SequenceJoins(first: seq<Piece>, second: seq<Piece>, s: string, k: nat)
    requires k <= |s| && InLanguage(first, s[..k]) && InLanguage(second, s[k..])
    ensures InLanguage(first + second, s)
  {
    hide InPiece;
    if first == [] {
      assert first + second == second && s[k..] == s;
    } else {
      var i :| 0 <= i <= k && InPiece(first[0], s[..k][..i]) && InLanguage(first[1..], s[..k][i..]);
      hide InLanguage;
      assert s[..k][..i] == s[..i] && s[..k][i..] == s[i..][..k - i] && s[k..] == s[i..][k - i..];
      SequenceJoins(first[1..], second, s[i..], k - i);
      assert (first + second)[0] == first[0] && (first + second)[1..] == first[1..] + second;
      LanguageStep(first + second, s, i);
    }
  }

  // Pieces one after the other stand for what they stand for, one after the other.
  lemma Sequence(first: seq<Piece>, second: seq<Piece>, s: string)
    ensures InLanguage(first + second, s) <==>
      exists k :: 0 <= k <= |s| && InLanguage(first, s[..k]) && InLanguage(second, s[k..])
  {
    hide InLanguage;
    if InLanguage(first + second, s) {
      var k := SequenceSplits(first, second, s);
    }
    if k :| 0 <= k <= |s| && InLanguage(first, s[..k]) && InLanguage(second, s[k..]) {
      SequenceJoins(first, second, s, k);
    }
  }

  // Searching: some stretch of the string matches, with nothing before it if the
  // pattern starts with '^' and nothing after it if it ends with '$'.
  lemma Searching(re: Regex, s: string)
    ensures MatchesSomewhere(re, s) <==>
      exists before: string, match_: string, after: string ::
        && before + match_ + after == s && InLanguage(re.pieces, match_)
        && (re.caret ==> before == "") && (re.dollar ==> after == "")
  {
    hide InLanguage;
    if j, k :| 0 <= j <= k <= |s| && (re.caret ==> j == 0) && (re.dollar ==> k == |s|) && InLanguage(re.pieces, s[j..k]) {
      assert s[..j] + s[j..k] + s[k..] == s;
    }
    forall before: string, match_: string, after: string |
      && before + match_ + after == s && InLanguage(re.pieces, match_)
      && (re.caret ==> before == "") && (re.dollar ==> after == "")
      ensures MatchesSomewhere(re, s)
    {
      assert s[|before|..|before| + |match_|] == match_;
    }
  }
}
