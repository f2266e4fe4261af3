// Splitting a string at a delimiter.
module Splitting {

  // The position of the first delimiter at or after pos, or the end of the string.
  function Find(s: string, delimiter: char, pos: nat): (i: nat)
    requires pos <= |s|
    ensures pos <= i <= |s| && delimiter !in s[pos..i] && (i < |s| ==> s[i] == delimiter)
    decreases |s| - pos
  {
    if pos == |s| || s[pos] == delimiter then pos
    else
      var i := Find(s, delimiter, pos + 1);
      assert s[pos..i] == [s[pos]] + s[pos + 1..i];
      i
  }

  function Join(parts: seq<string>, delimiter: char): string {
    if parts == [] then ""
    else if |parts| == 1 then parts[0]
    else parts[0] + [delimiter] + Join(parts[1..], delimiter)
  }

  // The pieces of s between delimiters: never empty, and joining them gives s back.
  ghost predicate IsSplit(parts: seq<string>, s: string, delimiter: char) {
    && parts != []
    && (forall k :: 0 <= k < |parts| ==> delimiter !in parts[k])
    && Join(parts, delimiter) == s
  }

  lemma {:induction false} FindIs(s: string, delimiter: char, pos: nat, n: nat)
    requires pos <= n <= |s| && (forall k :: pos <= k < n ==> s[k] != delimiter) && (n < |s| ==> s[n] == delimiter)
    ensures Find(s, delimiter, pos) == n
    decreases n - pos
  {
    if pos == n {
    } else {
      FindIs(s, delimiter, pos + 1, n);
    }
  }

  lemma {:induction false} FirstPiece(parts: seq<string>, s: string, delimiter: char)
    requires IsSplit(parts, s, delimiter)
    ensures var i := Find(s, delimiter, 0);
      && parts[0] == s[..i]
      && (|parts| == 1 <==> i == |s|)
      && (|parts| > 1 ==> IsSplit(parts[1..], s[i + 1..], delimiter))
  {
    var n := |parts[0]|;
    assert s[..n] == parts[0];
    if |parts| > 1 {
      assert s == (parts[0] + [delimiter]) + Join(parts[1..], delimiter);
      assert s[n + 1..] == Join(parts[1..], delimiter);
    }
    assert forall k :: 0 <= k < n ==> s[k] == parts[0][k];
    FindIs(s, delimiter, 0, n);
  }

  // There is only one way to split.
  lemma {:induction false} SplitIsUnique(parts: seq<string>, parts': seq<string>, s: string, delimiter: char)
    requires IsSplit(parts, s, delimiter) && IsSplit(parts', s, delimiter)
    ensures parts == parts'
    decreases |s|
  {
    FirstPiece(parts, s, delimiter);
    FirstPiece(parts', s, delimiter);
    var i := Find(s, delimiter, 0);
    if i == |s| {
    } else {
      SplitIsUnique(parts[1..], parts'[1..], s[i + 1..], delimiter);
      assert parts == [parts[0]] + parts[1..] && parts' == [parts'[0]] + parts'[1..];
    }
  }

  lemma {:induction false} JoinSnoc(parts: seq<string>, last: string, delimiter: char)
    requires parts != []
    ensures Join(parts + [last], delimiter) == Join(parts, delimiter) + [delimiter] + last
  {
    if |parts| == 1 {
      assert (parts + [last])[1..] == [last];
    } else {
      JoinSnoc(parts[1..], last, delimiter);
      assert (parts + [last])[1..] == parts[1..] + [last];
    }
  }

  method SplitString(str: string, delimiter: char) returns (parsed: seq<string>)
    ensures IsSplit(parsed, str, delimiter)
  {
    parsed := [];
    var pos := 0;
    while true
      invariant pos <= |str|
      invariant forall k :: 0 <= k < |parsed| ==> delimiter !in parsed[k]
      invariant if parsed == [] then pos == 0
                else pos > 0 && str[pos - 1] == delimiter && Join(parsed, delimiter) == str[..pos - 1]
      decreases |str| - pos
    {
      var colon := Find(str, delimiter, pos);
      var piece := str[pos..colon];
      if parsed != [] {
        JoinSnoc(parsed, piece, delimiter);
        assert str[..pos - 1] + [delimiter] + piece == str[..colon];
      } else {
        assert [] + [piece] == [piece] && str[..colon] == piece;
      }
      parsed := parsed + [piece];
      if colon == |str| {
        assert str[..|str|] == str;
        break;
      }
      pos := colon + 1;
    }
  }
}
