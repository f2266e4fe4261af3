// Matching simple regular expressions: the backtracking matcher and the
// language it decides.
module RegexMatch {
  import opened RegexSyntax
  import opened Prelude

  // ---------------------------------------------------------------- language

  predicate AtomMatchesChar(escaped: bool, patternChar: char, ch: char) {
    if escaped then
      match patternChar
      case 'd' => IsAsciiDigit(ch)
      case 'D' => !IsAsciiDigit(ch)
      case 'f' => ch == '\U{0C}'
      case 'n' => ch == '\n'
      case 'r' => ch == '\r'
      case 's' => IsAsciiWhiteSpace(ch)
      case 'S' => !IsAsciiWhiteSpace(ch)
      case 't' => ch == '\t'
      case 'v' => ch == '\U{0B}'
      case 'w' => IsAsciiWordChar(ch)
      case 'W' => !IsAsciiWordChar(ch)
      case _ => IsAsciiPunct(patternChar) && patternChar == ch
    else
      (patternChar == '.' && ch != '\n') || patternChar == ch
  }

  predicate CountAllowed(repeat: Repeat, n: nat) {
    match repeat
    case Once => n == 1
    case Optional => n <= 1
    case Star => true
    case Plus => n >= 1
  }

  // The strings one piece stands for: an allowed number of characters of its atom.
  ghost predicate InPiece(piece: Piece, s: string) {
    && CountAllowed(piece.repeat, |s|)
    && forall k :: 0 <= k < |s| ==> AtomMatchesChar(piece.atom.escaped, piece.atom.c, s[k])
  }

  // The strings a sequence of pieces stands for: concatenations of theirs.
  ghost predicate InLanguage(pieces: seq<Piece>, s: string) {
    if pieces == [] then s == ""
    else exists k :: 0 <= k <= |s| && InPiece(pieces[0], s[..k]) && InLanguage(pieces[1..], s[k..])
  }

  // Some prefix of s is in the language; with a '$' it must be all of s.
  ghost predicate MatchesHead(pieces: seq<Piece>, dollar: bool, s: string) {
    exists k :: 0 <= k <= |s| && (dollar ==> k == |s|) && InLanguage(pieces, s[..k])
  }

  // Some substring of s is in the language, anchored as written.
  ghost predicate MatchesSomewhere(re: Regex, s: string) {
    exists j, k :: 0 <= j <= k <= |s| && (re.caret ==> j == 0) && (re.dollar ==> k == |s|)
                   && InLanguage(re.pieces, s[j..k])
  }

  lemma HeadOfNothing(dollar: bool, s: string)
    ensures MatchesHead([], dollar, s) <==> !dollar || s == ""
  {
    assert s[..0] == "" && InLanguage([], s[..0]);
    if s == "" {
      assert MatchesHead([], dollar, s);
    }
  }

  // Peeling off the first piece.
  lemma HeadOfPieces(pieces: seq<Piece>, dollar: bool, s: string)
    requires pieces != []
    ensures MatchesHead(pieces, dollar, s) <==>
            exists i :: 0 <= i <= |s| && InPiece(pieces[0], s[..i]) && MatchesHead(pieces[1..], dollar, s[i..])
  {
    if k :| 0 <= k <= |s| && (dollar ==> k == |s|) && InLanguage(pieces, s[..k]) {
      var i :| 0 <= i <= k && InPiece(pieces[0], s[..k][..i]) && InLanguage(pieces[1..], s[..k][i..]);
      assert s[..k][..i] == s[..i] && s[..k][i..] == s[i..][..k - i];
      assert MatchesHead(pieces[1..], dollar, s[i..]);
    }
    if i :| 0 <= i <= |s| && InPiece(pieces[0], s[..i]) && MatchesHead(pieces[1..], dollar, s[i..]) {
      var k :| 0 <= k <= |s[i..]| && (dollar ==> k == |s[i..]|) && InLanguage(pieces[1..], s[i..][..k]);
      assert s[..i + k][..i] == s[..i] && s[..i + k][i..] == s[i..][..k];
      assert InLanguage(pieces, s[..i + k]);
    }
  }

  // A piece without repetition takes exactly one character.
  lemma HeadOfSingle(pieces: seq<Piece>, dollar: bool, s: string)
    requires pieces != [] && pieces[0].repeat == Once
    ensures MatchesHead(pieces, dollar, s) <==>
            s != "" && AtomMatchesChar(pieces[0].atom.escaped, pieces[0].atom.c, s[0])
            && MatchesHead(pieces[1..], dollar, s[1..])
  {
    hide MatchesHead, AtomMatchesChar;
    HeadOfPieces(pieces, dollar, s);
    if s != "" {
      assert s[..1][0] == s[0];
      assert InPiece(pieces[0], s[..1]) <==> AtomMatchesChar(pieces[0].atom.escaped, pieces[0].atom.c, s[0]);
    }
  }

  // ---------------------------------------------------------------- the matcher

  // size_t(-1) - 1: the cap on repetitions, which no indexable string reaches.
  const MAX_COUNT: nat := 0xFFFF_FFFF_FFFF_FFFE

  type IndexableString = s: CString | |s| <= MAX_COUNT

  ghost predicate IsTail(regex: string, pieces: seq<Piece>, dollar: bool) {
    ParsePieces(regex) == Some((pieces, dollar))
  }

  method MatchRegexAtHead(regex: CString, str: IndexableString, ghost pieces: seq<Piece>, ghost dollar: bool)
    returns (b: bool)
    requires IsTail(regex, pieces, dollar)
    ensures b <==> MatchesHead(pieces, dollar, str)
    decreases |regex|, 0
  {
    hide MatchesHead, AtomMatchesChar;
    if regex == "" {
      HeadOfNothing(dollar, str);
      return true;
    }
    if regex[0] == '$' {
      HeadOfNothing(dollar, str);
      return str == "";
    }
    ParsedUnparses(regex);
    HeadOfPieces(pieces, dollar, str);
    var escaped := regex[0] == '\\';
    var atom := if escaped then regex[1..] else regex;
    if |atom| > 1 && IsRepeat(atom[1]) {
      b := MatchRepetitionAndRegexAtHead(escaped, atom[0], atom[1], atom[2..], str, pieces[1..], dollar);
    } else {
      HeadOfSingle(pieces, dollar, str);
      if str == "" || !AtomMatchesChar(escaped, atom[0], str[0]) {
        return false;
      }
      b := MatchRegexAtHead(atom[1..], str[1..], pieces[1..], dollar);
    }
  }

  method MatchRepetitionAndRegexAtHead(escaped: bool, c: char, repeat: char, regex: CString, str: IndexableString,
                                       ghost pieces: seq<Piece>, ghost dollar: bool)
    returns (b: bool)
    requires IsRepeat(repeat) && IsTail(regex, pieces, dollar)
    ensures b <==> exists i :: 0 <= i <= |str| && InPiece(Piece(Atom(escaped, c), RepeatOf(repeat)), str[..i])
                               && MatchesHead(pieces, dollar, str[i..])
    decreases |regex|, 1
  {
    hide MatchesHead, AtomMatchesChar;
    var minCount := if repeat == '+' then 1 else 0;
    var maxCount := if repeat == '?' then 1 else MAX_COUNT;
    ghost var piece := Piece(Atom(escaped, c), RepeatOf(repeat));
    var i := 0;
    while i <= maxCount
      invariant 0 <= i <= |str| && i <= maxCount + 1
      invariant forall k :: 0 <= k < i ==> AtomMatchesChar(escaped, c, str[k])
      invariant forall k :: 0 <= k < i && InPiece(piece, str[..k]) ==> !MatchesHead(pieces, dollar, str[k..])
      decreases |str| - i
    {
      if i >= minCount {
        var tail := MatchRegexAtHead(regex, str[i..], pieces, dollar);
        if tail {
          assert InPiece(piece, str[..i]);
          return true;
        }
      }
      if i == |str| || !AtomMatchesChar(escaped, c, str[i]) {
        forall k | i < k <= |str|
          ensures !InPiece(piece, str[..k])
        {
          assert str[..k][i] == str[i];
        }
        return false;
      }
      i := i + 1;
    }
    return false;
  }

  // A head match at j is a substring match starting at j.
  lemma HeadIsSomewhere(re: Regex, s: string, j: nat)
    requires j <= |s|
    ensures MatchesHead(re.pieces, re.dollar, s[j..]) <==>
            exists k :: j <= k <= |s| && (re.dollar ==> k == |s|) && InLanguage(re.pieces, s[j..k])
  {
    hide InLanguage;
    if n :| 0 <= n <= |s[j..]| && (re.dollar ==> n == |s[j..]|) && InLanguage(re.pieces, s[j..][..n]) {
      assert s[j..][..n] == s[j..j + n];
    }
    if k :| j <= k <= |s| && (re.dollar ==> k == |s|) && InLanguage(re.pieces, s[j..k]) {
      assert s[j..][..k - j] == s[j..k];
    }
  }

  lemma SomewhereIsSomeHead(re: Regex, s: string)
    requires !re.caret
    ensures MatchesSomewhere(re, s) <==> exists j :: 0 <= j <= |s| && MatchesHead(re.pieces, re.dollar, s[j..])
  {
    hide MatchesHead;
    if j, k :| 0 <= j <= k <= |s| && (re.dollar ==> k == |s|) && InLanguage(re.pieces, s[j..k]) {
      HeadIsSomewhere(re, s, j);
    }
    if j :| 0 <= j <= |s| && MatchesHead(re.pieces, re.dollar, s[j..]) {
      HeadIsSomewhere(re, s, j);
    }
  }

  // Tries every starting position, unless the pattern begins with '^'.
  method MatchRegexAnywhere(maybeRegex: Option<CString>, maybeStr: Option<IndexableString>) returns (b: bool)
    requires maybeRegex.Some? ==> Parse(maybeRegex.value).Some?
    ensures maybeRegex.None? || maybeStr.None? ==> !b
    ensures maybeRegex.Some? && maybeStr.Some? ==>
      (b <==> MatchesSomewhere(Parse(maybeRegex.value).value, maybeStr.value))
  {
    hide ParsePieces, InLanguage;
    if maybeRegex.None? || maybeStr.None? {
      return false;
    }
    var regex, str := maybeRegex.value, maybeStr.value;
    ghost var re := Parse(regex).value;
    if regex != "" && regex[0] == '^' {
      b := MatchRegexAtHead(regex[1..], str, re.pieces, re.dollar);
      HeadIsSomewhere(re, str, 0);
      assert str[0..] == str;
      return;
    }
    var i := 0;
    while true
      invariant i <= |str|
      invariant forall j :: 0 <= j < i ==> !MatchesHead(re.pieces, re.dollar, str[j..])
      decreases |str| - i
    {
      b := MatchRegexAtHead(regex, str[i..], re.pieces, re.dollar);
      if b || i == |str| {
        break;
      }
      i := i + 1;
    }
    SomewhereIsSomeHead(re, str);
  }

  // ---------------------------------------------------------------- the RE class

  // The pattern used for full matches: '^' in front and '$' behind, unless there already.
  function FullPattern(regex: CString): CString {
    (if regex != "" && regex[0] == '^' then "" else "^")
    + regex
    + (if regex == "" || regex[|regex| - 1] != '$' then "$" else "")
  }

  // The last atom is an escaped dollar sign and nothing follows it.
  predicate EndsInEscapedDollar(re: Regex) {
    !re.dollar && re.pieces != [] && re.pieces[|re.pieces| - 1] == Piece(Atom(true, '$'), Once)
  }

  lemma LastOfPiece(piece: Piece, rest: string)
    requires ValidAtom(piece.atom)
    ensures
      var s := UnparseAtom(piece.atom) + UnparseRepeat(piece.repeat) + rest;
      s != "" && s[|s| - 1] == if rest != "" then rest[|rest| - 1]
                               else if piece.repeat == Once then piece.atom.c
                               else UnparseRepeat(piece.repeat)[0]
  {
  }

  lemma TailIsWellFormed(pieces: seq<Piece>)
    requires WellFormed(pieces) && pieces != []
    ensures WellFormed(pieces[1..]) && ValidAtom(pieces[0].atom)
  {
  }

  lemma {:induction false} LastCharacter(pieces: seq<Piece>, dollar: bool)
    requires WellFormed(pieces)
    ensures var s := UnparsePieces(pieces, dollar);
      s != "" && s[|s| - 1] == '$' <==> dollar || EndsInEscapedDollar(Regex(false, pieces, dollar))
  {
    if pieces == [] {
    } else {
      hide UnparseAtom, WellFormed;
      var rest := pieces[1..];
      assert WellFormed(rest) && ValidAtom(pieces[0].atom) by { TailIsWellFormed(pieces); }
      LastCharacter(rest, dollar);
      UnparsedStart(rest, dollar);
      LastOfPiece(pieces[0], UnparsePieces(rest, dollar));
      assert rest != [] ==> rest[|rest| - 1] == pieces[|pieces| - 1];
    }
  }

  lemma {:induction false} AppendDollar(pieces: seq<Piece>)
    ensures UnparsePieces(pieces, true) == UnparsePieces(pieces, false) + "$"
  {
    if pieces == [] {
    } else {
      AppendDollar(pieces[1..]);
    }
  }

  lemma FullPatternOf(caret: bool, body: string, regex: CString)
    requires regex == (if caret then "^" else "") + body && (body == "" || body[0] != '^')
    ensures FullPattern(regex) == "^" + (body + (if body == "" || body[|body| - 1] != '$' then "$" else ""))
  {
    if caret && body != "" {
      assert regex[|regex| - 1] == body[|body| - 1];
    }
  }

  lemma DollarOrEscaped(re: Regex)
    ensures re.dollar ==> !EndsInEscapedDollar(re)
    ensures EndsInEscapedDollar(Regex(false, re.pieces, re.dollar)) == EndsInEscapedDollar(re)
  {
  }

  // The pattern without '^': a '$' is added unless one is the last character.
  lemma BodyWithDollar(re: Regex)
    requires WellFormed(re.pieces)
    ensures
      var body := UnparsePieces(re.pieces, re.dollar);
      UnparsePieces(re.pieces, !EndsInEscapedDollar(re)) == body + (if body == "" || body[|body| - 1] != '$' then "$" else "")
  {
    hide UnparsePieces, EndsInEscapedDollar, WellFormed;
    LastCharacter(re.pieces, re.dollar);
    AppendDollar(re.pieces);
    DollarOrEscaped(re);
  }

  lemma FullPatternUnparses(re: Regex, regex: CString)
    requires WellFormed(re.pieces) && Unparse(re) == regex
    ensures Unparse(Regex(true, re.pieces, !EndsInEscapedDollar(re))) == FullPattern(regex)
  {
    hide UnparsePieces, EndsInEscapedDollar, WellFormed, FullPattern;
    var body := UnparsePieces(re.pieces, re.dollar);
    UnparsedStart(re.pieces, re.dollar);
    BodyWithDollar(re);
    FullPatternOf(re.caret, body, regex);
  }

  // The full pattern anchors both ends, except after an escaped dollar.
  lemma FullPatternParses(regex: CString)
    requires Parse(regex).Some?
    ensures
      var re := Parse(regex).value;
      Parse(FullPattern(regex)) == Some(Regex(true, re.pieces, !EndsInEscapedDollar(re)))
  {
    hide Parse, Unparse, FullPattern;
    var re := Parse(regex).value;
    ParseIffUnparse(regex, re);
    FullPatternUnparses(re, regex);
    ParseIffUnparse(FullPattern(regex), Regex(true, re.pieces, !EndsInEscapedDollar(re)));
  }

  ghost predicate FullMatches(re: Regex, s: string) {
    if EndsInEscapedDollar(re) then exists k :: 0 <= k <= |s| && InLanguage(re.pieces, s[..k])
    else InLanguage(re.pieces, s)
  }

  lemma AnchoredIsFull(re: Regex, s: string)
    ensures MatchesSomewhere(Regex(true, re.pieces, !EndsInEscapedDollar(re)), s) <==> FullMatches(re, s)
  {
    hide InLanguage;
    assert s[0..|s|] == s;
    assert forall k :: 0 <= k <= |s| ==> s[0..k] == s[..k];
  }

  class RE {
    const pattern: Option<CString>
    const fullPattern: Option<CString>
    const isValid: bool

    // A valid object's full pattern is built from its pattern.
    ghost predicate Valid() {
      && (isValid <==> pattern.Some? && Parse(pattern.value).Some?)
      && fullPattern == if isValid then Some(FullPattern(pattern.value)) else None
    }

    constructor Init(regex: Option<CString>)
      ensures Valid() && pattern == regex
    {
      hide Parse, Unparse, WellFormed;
      pattern := regex;
      var valid := ValidateRegex(regex);
      if regex.Some? {
        ValidIffParses(regex.value);
      }
      isValid := valid;
      if valid {
        var buffer := "";
        if !(regex.value != "" && regex.value[0] == '^') {
          buffer := buffer + "^";
        }
        buffer := buffer + regex.value;
        if regex.value == "" || regex.value[|regex.value| - 1] != '$' {
          buffer := buffer + "$";
        }
        assert buffer == FullPattern(regex.value);
        fullPattern := Some(buffer);
      } else {
        fullPattern := None;
      }
    }

    // The whole string matches - or, after an escaped dollar, only some prefix.
    static method FullMatch(str: Option<IndexableString>, re: RE) returns (b: bool)
      requires re.Valid()
      ensures !re.isValid || str.None? ==> !b
      ensures re.isValid && str.Some? ==> (b <==> FullMatches(Parse(re.pattern.value).value, str.value))
    {
      if !re.isValid {
        return false;
      }
      FullPatternParses(re.pattern.value);
      b := MatchRegexAnywhere(re.fullPattern, str);
      if str.Some? {
        AnchoredIsFull(Parse(re.pattern.value).value, str.value);
      }
    }

    static method PartialMatch(str: Option<IndexableString>, re: RE) returns (b: bool)
      requires re.Valid()
      ensures !re.isValid || str.None? ==> !b
      ensures re.isValid && str.Some? ==> (b <==> MatchesSomewhere(Parse(re.pattern.value).value, str.value))
    {
      if !re.isValid {
        return false;
      }
      b := MatchRegexAnywhere(re.pattern, str);
    }
  }

  // ---------------------------------------------------------------- full matches

  // A character the atom matches.
  function SampleChar(atom: Atom): (ch: char)
    requires ValidAtom(atom)
    ensures ch != '\0' && AtomMatchesChar(atom.escaped, atom.c, ch)
  {
    if !atom.escaped then atom.c
    else
      match atom.c
      case 'd' => '0'
      case 'D' => 'a'
      case 'f' => '\U{0C}'
      case 'n' => '\n'
      case 'r' => '\r'
      case 's' => ' '
      case 'S' => 'a'
      case 't' => '\t'
      case 'v' => '\U{0B}'
      case 'w' => 'a'
      case 'W' => ' '
      case _ => atom.c
  }

  // Every well-formed regex matches something.
  lemma {:induction false} LanguageIsNotEmpty(pieces: seq<Piece>) returns (s: CString)
    requires WellFormed(pieces)
    ensures InLanguage(pieces, s) && |s| == |pieces|
  {
    hide AtomMatchesChar;
    if pieces == [] {
      s := "";
    } else {
      assert ValidAtom(pieces[0].atom);
      var rest := LanguageIsNotEmpty(pieces[1..]);
      s := [SampleChar(pieces[0].atom)] + rest;
      assert s[..1] == [SampleChar(pieces[0].atom)] && s[1..] == rest;
      assert InPiece(pieces[0], s[..1]);
    }
  }

  // The last character of a match of "...\$" is a dollar sign.
  lemma {:induction false} EndsWithDollar(pieces: seq<Piece>, s: string)
    requires pieces != [] && pieces[|pieces| - 1] == Piece(Atom(true, '$'), Once)
    requires InLanguage(pieces, s)
    ensures s != "" && s[|s| - 1] == '$'
    decreases |pieces|
  {
    var k :| 0 <= k <= |s| && InPiece(pieces[0], s[..k]) && InLanguage(pieces[1..], s[k..]);
    if |pieces| == 1 {
      assert s[k..] == "" && s[..k] == s;
      assert AtomMatchesChar(true, '$', s[..k][0]);
    } else {
      EndsWithDollar(pieces[1..], s[k..]);
    }
  }

  // After an escaped dollar some string with one character too many is a full match.
  lemma LongerFullMatch(re: Regex) returns (longer: CString)
    requires WellFormed(re.pieces) && EndsInEscapedDollar(re)
    ensures FullMatches(re, longer) && !InLanguage(re.pieces, longer)
  {
    hide InLanguage, WellFormed;
    var s := LanguageIsNotEmpty(re.pieces);
    longer := s + "x";
    assert longer[..|s|] == s;
    assert longer[|longer| - 1] != '$';
    if InLanguage(re.pieces, longer) {
      EndsWithDollar(re.pieces, longer);
    }
  }

  // FullMatch decides whole-string matching for every string exactly when the
  // pattern does not end in an escaped dollar.
  lemma FullMatchIsWholeMatch(re: Regex)
    requires WellFormed(re.pieces)
    ensures (forall s: CString :: FullMatches(re, s) <==> InLanguage(re.pieces, s)) <==> !EndsInEscapedDollar(re)
  {
    hide InLanguage, WellFormed;
    if EndsInEscapedDollar(re) {
      hide EndsInEscapedDollar, FullMatches;
      var longer := LongerFullMatch(re);
    }
  }

  // The pattern \\$ is a full match for "$x", though the string has one character too many.
  lemma EscapedDollarExample()
    ensures Parse("\\$") == Some(Regex(false, [Piece(Atom(true, '$'), Once)], false))
    ensures FullMatches(Parse("\\$").value, "$x") && !InLanguage(Parse("\\$").value.pieces, "$x")
  {
    var pieces := [Piece(Atom(true, '$'), Once)];
    assert UnparsePieces(pieces[1..], false) == "";
    ParseIffUnparse("\\$", Regex(false, pieces, false));
    assert InLanguage(pieces[1..], "$"[1..]) && "$"[..1] == "$" && InPiece(pieces[0], "$"[..1]);
    assert InLanguage(pieces, "$") && "$x"[..1] == "$";
    if InLanguage(pieces, "$x") {
      EndsWithDollar(pieces, "$x");
    }
  }
}
