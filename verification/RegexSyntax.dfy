// The syntax of simple regular expressions: the validator, the grammar it
// accepts, and the unique parse of every accepted pattern.
module RegexSyntax {
  import opened Prelude

  // ---------------------------------------------------------------- characters

  predicate IsInSet(ch: char, str: CString) {
    ch != '\0' && ch in str
  }

  predicate IsAsciiDigit(ch: char) { '0' <= ch <= '9' }

  predicate IsAsciiPunct(ch: char) { IsInSet(ch, "^-!\"#$%&'()*+,./:;<=>?@[\\]_`{|}~") }

  predicate IsRepeat(ch: char) { IsInSet(ch, "?*+") }

  predicate IsAsciiWhiteSpace(ch: char) { IsInSet(ch, " \U{0C}\n\r\t\U{0B}") }

  predicate IsAsciiWordChar(ch: char) {
    'a' <= ch <= 'z' || 'A' <= ch <= 'Z' || '0' <= ch <= '9' || ch == '_'
  }

  predicate IsValidEscape(c: char) {
    IsAsciiPunct(c) || IsInSet(c, "dDfnrsStvwW")
  }

  // ---------------------------------------------------------------- grammar

  // An atom is a plain character or an escape, with at most one repetition mark.
  datatype Atom = Atom(escaped: bool, c: char)
  datatype Repeat = Once | Optional | Star | Plus
  datatype Piece = Piece(atom: Atom, repeat: Repeat)

  // Optional '^', pieces, optional '$'.
  datatype Regex = Regex(caret: bool, pieces: seq<Piece>, dollar: bool)

  predicate ValidAtom(atom: Atom) {
    if atom.escaped then IsValidEscape(atom.c)
    else atom.c != '\0' && atom.c !in "\\^$()[]{}|?*+"
  }

  ghost predicate WellFormed(pieces: seq<Piece>) {
    forall k :: 0 <= k < |pieces| ==> ValidAtom(pieces[k].atom)
  }

  function UnparseAtom(atom: Atom): string {
    if atom.escaped then ['\\', atom.c] else [atom.c]
  }

  function UnparseRepeat(repeat: Repeat): string {
    match repeat
    case Once => ""
    case Optional => "?"
    case Star => "*"
    case Plus => "+"
  }

  function UnparsePieces(pieces: seq<Piece>, dollar: bool): string {
    if pieces == [] then (if dollar then "$" else "")
    else UnparseAtom(pieces[0].atom) + UnparseRepeat(pieces[0].repeat) + UnparsePieces(pieces[1..], dollar)
  }

  function Unparse(re: Regex): string {
    (if re.caret then "^" else "") + UnparsePieces(re.pieces, re.dollar)
  }

  // ---------------------------------------------------------------- parsing

  function RepeatOf(ch: char): Repeat {
    if ch == '?' then Optional else if ch == '*' then Star else Plus
  }

  // The first atom of a pattern.
  function HeadAtom(s: string): Option<Atom> {
    if s == "" then None
    else if s[0] == '\\' then
      if |s| > 1 && IsValidEscape(s[1]) then Some(Atom(true, s[1])) else None
    else if ValidAtom(Atom(false, s[0])) then Some(Atom(false, s[0]))
    else None
  }

  // The first piece of a pattern and what follows it.
  function HeadPiece(s: string): (r: Option<(Piece, string)>)
    ensures r.Some? ==> |r.value.1| < |s|
  {
    match HeadAtom(s)
    case None => None
    case Some(atom) =>
      var rest := s[|UnparseAtom(atom)|..];
      if rest != "" && IsRepeat(rest[0]) then Some((Piece(atom, RepeatOf(rest[0])), rest[1..]))
      else Some((Piece(atom, Once), rest))
  }

  function ParsePieces(s: string): Option<(seq<Piece>, bool)> {
    if s == "" then Some(([], false))
    else if s == "$" then Some(([], true))
    else
      match HeadPiece(s)
      case None => None
      case Some((piece, rest)) =>
        match ParsePieces(rest)
        case None => None
        case Some((pieces, dollar)) => Some(([piece] + pieces, dollar))
  }

  function Parse(s: string): Option<Regex> {
    var caret := s != "" && s[0] == '^';
    match ParsePieces(if caret then s[1..] else s)
    case None => None
    case Some((pieces, dollar)) => Some(Regex(caret, pieces, dollar))
  }

  lemma HeadPieceUnparses(s: string)
    ensures HeadPiece(s).Some? ==>
      var (piece, rest) := HeadPiece(s).value;
      ValidAtom(piece.atom) && s == UnparseAtom(piece.atom) + UnparseRepeat(piece.repeat) + rest
      && (piece.repeat == Once ==> rest == "" || !IsRepeat(rest[0]))
  {
    if HeadAtom(s).Some? {
      var atom := HeadAtom(s).value;
      var rest := s[|UnparseAtom(atom)|..];
      assert s == UnparseAtom(atom) + rest;
      if rest != "" && IsRepeat(rest[0]) {
        assert rest == UnparseRepeat(RepeatOf(rest[0])) + rest[1..];
      }
    }
  }

  lemma HeadPieceOfUnparsed(piece: Piece, rest: string)
    requires ValidAtom(piece.atom)
    requires piece.repeat == Once ==> rest == "" || !IsRepeat(rest[0])
    ensures HeadPiece(UnparseAtom(piece.atom) + UnparseRepeat(piece.repeat) + rest) == Some((piece, rest))
  {
    var tail := UnparseRepeat(piece.repeat) + rest;
    var s := UnparseAtom(piece.atom) + tail;
    assert UnparseAtom(piece.atom) + UnparseRepeat(piece.repeat) + rest == s;
    assert s[|UnparseAtom(piece.atom)|..] == tail;
    if piece.repeat != Once {
      assert tail[0] == UnparseRepeat(piece.repeat)[0] && tail[1..] == rest;
    }
  }

  // What follows a piece never starts with a repetition mark.
  lemma UnparsedStart(pieces: seq<Piece>, dollar: bool)
    requires WellFormed(pieces)
    ensures var s := UnparsePieces(pieces, dollar); s == "" || (!IsRepeat(s[0]) && s[0] != '^')
    ensures pieces != [] ==> UnparsePieces(pieces, dollar) != "" && UnparsePieces(pieces, dollar) != "$"
  {
    if pieces != [] {
      assert ValidAtom(pieces[0].atom);
    }
  }

  lemma {:induction false} ParsedUnparses(s: string)
    ensures ParsePieces(s).Some? ==>
      WellFormed(ParsePieces(s).value.0) && UnparsePieces(ParsePieces(s).value.0, ParsePieces(s).value.1) == s
    decreases |s|
  {
    if s == "" || s == "$" || HeadPiece(s).None? {
    } else {
      HeadPieceUnparses(s);
      ParsedUnparses(HeadPiece(s).value.1);
    }
  }

  lemma UnparseStep(pieces: seq<Piece>, dollar: bool)
    requires pieces != []
    ensures UnparsePieces(pieces, dollar) ==
            UnparseAtom(pieces[0].atom) + UnparseRepeat(pieces[0].repeat) + UnparsePieces(pieces[1..], dollar)
  {
  }

  lemma ParsePiece(s: string, piece: Piece, rest: string, pieces: seq<Piece>, dollar: bool)
    requires s != "" && s != "$" && HeadPiece(s) == Some((piece, rest)) && ParsePieces(rest) == Some((pieces, dollar))
    ensures ParsePieces(s) == Some(([piece] + pieces, dollar))
  {
  }

  lemma {:induction false} UnparsedParses(pieces: seq<Piece>, dollar: bool)
    requires WellFormed(pieces)
    ensures ParsePieces(UnparsePieces(pieces, dollar)) == Some((pieces, dollar))
  {
    if pieces == [] {
    } else {
      hide ParsePieces, UnparsePieces, HeadPiece, ValidAtom;
      var rest := UnparsePieces(pieces[1..], dollar);
      UnparseStep(pieces, dollar);
      UnparsedStart(pieces, dollar);
      UnparsedStart(pieces[1..], dollar);
      UnparsedParses(pieces[1..], dollar);
      assert ValidAtom(pieces[0].atom);
      HeadPieceOfUnparsed(pieces[0], rest);
      ParsePiece(UnparsePieces(pieces, dollar), pieces[0], rest, pieces[1..], dollar);
      assert [pieces[0]] + pieces[1..] == pieces;
    }
  }

  // A string is written by exactly one well-formed regex, or by none.
  lemma ParseIffUnparse(s: string, re: Regex)
    ensures Parse(s) == Some(re) <==> WellFormed(re.pieces) && Unparse(re) == s
  {
    hide ParsePieces, UnparsePieces;
    var caret := s != "" && s[0] == '^';
    var body := if caret then s[1..] else s;
    ParsedUnparses(body);
    if Parse(s) == Some(re) {
      assert caret ==> s == "^" + body;
    }
    if WellFormed(re.pieces) && Unparse(re) == s {
      UnparsedParses(re.pieces, re.dollar);
      UnparsedStart(re.pieces, re.dollar);
      assert re.caret == caret && UnparsePieces(re.pieces, re.dollar) == body;
    }
  }

  // ---------------------------------------------------------------- the validator

  predicate PlainAllowed(regex: string, i: nat, prevRepeatable: bool)
    requires i < |regex|
  {
    var ch := regex[i];
    && !(ch == '^' && i > 0)
    && !(ch == '$' && i + 1 < |regex|)
    && !IsInSet(ch, "()[]{}|")
    && !(IsRepeat(ch) && !prevRepeatable)
  }

  // What the validator accepts from position i on; prevRepeatable says whether a
  // repetition mark may come first.
  function ValidFrom(regex: string, i: nat, prevRepeatable: bool): bool
    requires i <= |regex|
    decreases |regex| - i
  {
    if i == |regex| then true
    else if regex[i] == '\\' then
      i + 1 < |regex| && IsValidEscape(regex[i + 1]) && ValidFrom(regex, i + 2, true)
    else
      PlainAllowed(regex, i, prevRepeatable) && ValidFrom(regex, i + 1, !IsInSet(regex[i], "^$?*+"))
  }

  lemma ParseStep(s: string)
    ensures s == "" || s == "$" ==> ParsePieces(s).Some?
    ensures s != "" && s != "$" ==>
      (ParsePieces(s).Some? <==> HeadPiece(s).Some? && ParsePieces(HeadPiece(s).value.1).Some?)
  {
  }

  // Where no repetition mark may come, the validator wants an atom ...
  lemma ValidAtomStep(regex: CString, i: nat)
    requires i < |regex| && (i == 0 ==> regex[0] != '^') && regex[i..] != "$"
    ensures ValidFrom(regex, i, false) <==>
      var atom := HeadAtom(regex[i..]);
      atom.Some? && ValidFrom(regex, i + |UnparseAtom(atom.value)|, true)
  {
    var s := regex[i..];
    assert s[0] == regex[i] && (|s| > 1 ==> s[1] == regex[i + 1]);
    if regex[i] != '\\' {
      if |s| == 1 {
        assert s == [regex[i]];
      }
      assert PlainAllowed(regex, i, false) <==> ValidAtom(Atom(false, regex[i]));
    }
  }

  // ... and after one, an optional repetition mark.
  lemma ValidRepeatStep(regex: CString, i: nat)
    requires 0 < i <= |regex|
    ensures ValidFrom(regex, i, true) <==>
            if i < |regex| && IsRepeat(regex[i]) then ValidFrom(regex, i + 1, false) else ValidFrom(regex, i, false)
  {
  }

  // One piece, and where the validator stands after it.
  lemma ValidPieceStep(regex: CString, i: nat)
    requires i < |regex| && (i == 0 ==> regex[0] != '^') && regex[i..] != "$"
    ensures HeadPiece(regex[i..]).Some? ==>
      var rest := HeadPiece(regex[i..]).value.1;
      i < |regex| - |rest| && rest == regex[|regex| - |rest|..]
    ensures ValidFrom(regex, i, false) <==>
      HeadPiece(regex[i..]).Some? && ValidFrom(regex, |regex| - |HeadPiece(regex[i..]).value.1|, false)
  {
    hide ValidFrom;
    var s := regex[i..];
    ValidAtomStep(regex, i);
    if HeadAtom(s).Some? {
      var j := i + |UnparseAtom(HeadAtom(s).value)|;
      assert s[j - i..] == regex[j..];
      ValidRepeatStep(regex, j);
      if j < |regex| {
        assert regex[j..][1..] == regex[j + 1..];
      }
    }
  }

  // The end of the pattern, with or without a '$'.
  lemma EndIsValid(regex: CString, i: nat)
    requires i <= |regex| && (i == |regex| || regex[i..] == "$")
    ensures ValidFrom(regex, i, false)
  {
    if i < |regex| {
      assert regex[i..][0] == regex[i] && |regex[i..]| == 1;
    }
  }

  // After the start the validator accepts exactly what parses.
  lemma {:induction false} ValidTailIffParses(regex: CString, i: nat)
    requires i <= |regex| && (i == 0 ==> regex == "" || regex[0] != '^')
    ensures ValidFrom(regex, i, false) <==> ParsePieces(regex[i..]).Some?
    decreases |regex| - i
  {
    var s := regex[i..];
    hide ParsePieces, HeadPiece, ValidFrom;
    ParseStep(s);
    if i == |regex| || s == "$" {
      EndIsValid(regex, i);
    } else {
      ValidPieceStep(regex, i);
      if HeadPiece(s).Some? {
        ValidTailIffParses(regex, |regex| - |HeadPiece(s).value.1|);
      }
    }
  }

  lemma ValidIffParses(regex: CString)
    ensures ValidFrom(regex, 0, false) <==> Parse(regex).Some?
    ensures Parse(regex).Some? <==> exists re: Regex :: WellFormed(re.pieces) && Unparse(re) == regex
  {
    hide ParsePieces, Unparse;
    if regex != "" && regex[0] == '^' {
      ValidTailIffParses(regex, 1);
    } else {
      ValidTailIffParses(regex, 0);
      assert regex[0..] == regex;
    }
    if Parse(regex).Some? {
      ParseIffUnparse(regex, Parse(regex).value);
    }
    if re: Regex :| WellFormed(re.pieces) && Unparse(re) == regex {
      ParseIffUnparse(regex, re);
    }
  }

  // Reads the whole pattern even after an error; NULL is invalid.
  method ValidateRegex(maybeRegex: Option<CString>) returns (isValid: bool)
    ensures isValid <==> maybeRegex.Some? && exists re: Regex :: WellFormed(re.pieces) && Unparse(re) == maybeRegex.value
  {
    hide Parse, ParsePieces, Unparse, UnparsePieces;
    if maybeRegex.None? {
      return false;
    }
    var regex := maybeRegex.value;
    isValid := true;
    var prevRepeatable := false;
    var i := 0;
    ValidIffParses(regex);
    while i < |regex|
      invariant i <= |regex|
      invariant ValidFrom(regex, 0, false) <==> isValid && ValidFrom(regex, i, prevRepeatable)
      decreases |regex| - i
    {
      if regex[i] == '\\' {
        i := i + 1;
        if i == |regex| {
          return false;
        }
        if !IsValidEscape(regex[i]) {
          isValid := false;
        }
        prevRepeatable := true;
      } else {
        var ch := regex[i];
        if ch == '^' && i > 0 {
          isValid := false;
        } else if ch == '$' && i + 1 < |regex| {
          isValid := false;
        } else if IsInSet(ch, "()[]{}|") {
          isValid := false;
        } else if IsRepeat(ch) && !prevRepeatable {
          isValid := false;
        }
        prevRepeatable := !IsInSet(ch, "^$?*+");
      }
      i := i + 1;
    }
  }
}
