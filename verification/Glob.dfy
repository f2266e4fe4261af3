// The iterative wildcard matcher of test filters and its meaning.
module Glob {

  // The recursive meaning of a pattern: '?' is any one character, '*' any run
  // of them, everything else itself.
  ghost predicate Matches(pattern: string, name: string)
    decreases |pattern| + |name|
  {
    if pattern == [] then name == []
    else if pattern[0] == '*' then Matches(pattern[1..], name) || (name != [] && Matches(pattern, name[1..]))
    else name != [] && (pattern[0] == '?' || pattern[0] == name[0]) && Matches(pattern[1..], name[1..])
  }

  function Concat(pieces: seq<string>): string {
    if pieces == [] then "" else pieces[0] + Concat(pieces[1..])
  }

  // The name cut into one piece per character of the pattern: any piece for '*', one
  // character for '?', and itself for every other character.
  ghost predicate Reads(pattern: string, pieces: seq<string>, name: string) {
    && |pieces| == |pattern| && Concat(pieces) == name
    && forall k :: 0 <= k < |pattern| ==>
         pattern[k] == '*' || (|pieces[k]| == 1 && (pattern[k] == '?' || pattern[k] == pieces[k][0]))
  }

  lemma {:induction false} ReadsMatch(pattern: string, pieces: seq<string>, name: string)
    requires Reads(pattern, pieces, name)
    ensures Matches(pattern, name)
    decreases |pattern|, |name|
  {
    if pattern == [] {
    } else {
      assert forall k :: 0 <= k < |pattern| - 1 ==> pattern[1..][k] == pattern[k + 1] && pieces[1..][k] == pieces[k + 1];
      if pattern[0] == '*' && pieces[0] != "" {
        var shorter := [pieces[0][1..]] + pieces[1..];
        assert shorter[1..] == pieces[1..] && Concat(shorter) == name[1..];
        ReadsMatch(pattern, shorter, name[1..]);
      } else {
        ReadsMatch(pattern[1..], pieces[1..], name[|pieces[0]|..]);
        assert name[0..] == name;
      }
    }
  }

  lemma {:induction false} MatchReads(pattern: string, name: string) returns (pieces: seq<string>)
    requires Matches(pattern, name)
    ensures Reads(pattern, pieces, name)
    decreases |pattern|, |name|
  {
    if pattern == [] {
      pieces := [];
    } else if pattern[0] == '*' && !Matches(pattern[1..], name) {
      var rest := MatchReads(pattern, name[1..]);
      pieces := [[name[0]] + rest[0]] + rest[1..];
    } else {
      var n := if pattern[0] == '*' then 0 else 1;
      var rest := MatchReads(pattern[1..], name[n..]);
      pieces := [name[..n]] + rest;
      assert pieces[1..] == rest;
    }
  }

  // A pattern matches exactly the names that can be cut up as it reads.
  lemma MatchesMeans(pattern: string, name: string)
    ensures Matches(pattern, name) <==> exists pieces :: Reads(pattern, pieces, name)
  {
    if Matches(pattern, name) {
      var pieces := MatchReads(pattern, name);
    }
    forall pieces | Reads(pattern, pieces, name)
      ensures Matches(pattern, name)
    {
      ReadsMatch(pattern, pieces, name);
    }
  }

  // A stretch of pattern without '*' that matches a stretch of name of the same length.
  ghost predicate Fits(pattern: string, name: string) {
    && |pattern| == |name|
    && forall k :: 0 <= k < |pattern| ==> pattern[k] != '*' && (pattern[k] == '?' || pattern[k] == name[k])
  }

  // '*' followed by rest matches exactly if rest matches some suffix.
  lemma {:induction false} StarMeansSomeSuffix(pattern: string, name: string)
    requires pattern != [] && pattern[0] == '*'
    ensures Matches(pattern, name) <==> exists k :: 0 <= k <= |name| && Matches(pattern[1..], name[k..])
    decreases |name|
  {
    assert name[0..] == name;
    if name == [] {
    } else {
      StarMeansSomeSuffix(pattern, name[1..]);
      assert forall k :: 0 < k <= |name| ==> name[1..][k - 1..] == name[k..];
      if k :| 0 <= k <= |name| && Matches(pattern[1..], name[k..]) {
        if k > 0 {
          assert name[1..][k - 1..] == name[k..];
        }
      }
    }
  }

  lemma FitsStep(pattern: string, name: string)
    requires pattern != [] && |pattern| == |name|
    ensures Fits(pattern, name) <==>
            pattern[0] != '*' && (pattern[0] == '?' || pattern[0] == name[0]) && Fits(pattern[1..], name[1..])
  {
    assert forall k :: 0 < k < |pattern| ==> pattern[k] == pattern[1..][k - 1] && name[k] == name[1..][k - 1];
  }

  // A star-free prefix consumes exactly as many characters as it has.
  lemma {:induction false} StarFreePrefix(pattern: string, name: string, n: nat)
    requires n <= |pattern|
    requires forall k :: 0 <= k < n ==> pattern[k] != '*'
    ensures Matches(pattern, name) <==> n <= |name| && Fits(pattern[..n], name[..n]) && Matches(pattern[n..], name[n..])
  {
    if n == 0 {
      assert pattern[0..] == pattern && name[0..] == name;
    } else if name != [] {
      StarFreePrefix(pattern[1..], name[1..], n - 1);
      assert pattern[1..][n - 1..] == pattern[n..];
      if n <= |name| {
        assert name[1..][n - 1..] == name[n..];
        FitsStep(pattern[..n], name[..n]);
        assert pattern[..n][1..] == pattern[1..][..n - 1] && name[..n][1..] == name[1..][..n - 1];
      }
    }
  }

  // Skipping more of the name cannot help a pattern that starts with '*'.
  lemma {:induction false} StarAbsorbs(pattern: string, name: string, k: nat)
    requires pattern != [] && pattern[0] == '*' && k <= |name|
    requires Matches(pattern, name[k..])
    ensures Matches(pattern, name)
  {
    StarMeansSomeSuffix(pattern, name);
    StarMeansSomeSuffix(pattern, name[k..]);
    var j :| 0 <= j <= |name[k..]| && Matches(pattern[1..], name[k..][j..]);
    assert name[k..][j..] == name[k + j..];
  }

  // The later star dominates: with `star` the last '*' passed, pattern[star + 1..p]
  // star-free and matched from restart - 1, a new '*' at p makes restarting at the old one useless.
  lemma LaterStarDominates(pattern: string, name: string, star: nat, restart: nat, p: nat, n: nat)
    requires star < p < |pattern| && pattern[star] == '*' && pattern[p] == '*'
    requires 1 <= restart && restart - 1 <= n <= |name| && n - (restart - 1) == p - (star + 1)
    requires forall k :: star < k < p ==> pattern[k] != '*'
    ensures restart <= |name| && Matches(pattern[star..], name[restart..]) ==> Matches(pattern[p..], name[n..])
  {
    if restart > |name| || !Matches(pattern[star..], name[restart..]) {
      return;
    }
    StarMeansSomeSuffix(pattern[star..], name[restart..]);
    assert pattern[star..][1..] == pattern[star + 1..];
    var k :| 0 <= k <= |name[restart..]| && Matches(pattern[star + 1..], name[restart..][k..]);
    var tail := name[restart..][k..];
    var skip := p - (star + 1);
    StarFreePrefix(pattern[star + 1..], tail, skip);
    assert pattern[star + 1..][skip..] == pattern[p..];
    assert tail[skip..] == name[restart + k + skip..] == name[n..][k + 1..];
    StarAbsorbs(pattern[p..], name[n..], k + 1);
  }

  // The answer still open: what remains to be matched, or a restart at the last star.
  ghost predicate Open(pattern: string, name: string, hasStar: bool, star: nat, restart: nat, p: nat, n: nat)
    requires p <= |pattern| && n <= |name|
    requires hasStar ==> star < |pattern|
  {
    Matches(pattern[p..], name[n..]) || (hasStar && restart <= |name| && Matches(pattern[star..], name[restart..]))
  }

  // One step of the meaning, at positions p and n.
  lemma MatchesHere(pattern: string, name: string, p: nat, n: nat)
    requires p <= |pattern| && n <= |name|
    ensures p == |pattern| ==> (Matches(pattern[p..], name[n..]) <==> n == |name|)
    ensures p < |pattern| && pattern[p] == '*' ==>
      (Matches(pattern[p..], name[n..]) <==>
         Matches(pattern[p + 1..], name[n..]) || (n < |name| && Matches(pattern[p..], name[n + 1..])))
    ensures p < |pattern| && pattern[p] != '*' ==>
      (Matches(pattern[p..], name[n..]) <==>
         n < |name| && (pattern[p] == '?' || pattern[p] == name[n]) && Matches(pattern[p + 1..], name[n + 1..]))
  {
  }

  // Matches name against pattern[..], remembering only the last '*' met: where it
  // is and where the next attempt after it starts in the name.
  method PatternMatchesString(name: string, pattern: string) returns (matches: bool)
    ensures matches <==> Matches(pattern, name)
  {
    hide Matches;
    var p, n := 0, 0;
    var patternNext, nameNext := 0, 0;
    assert pattern[0..] == pattern && name[0..] == name;
    while p < |pattern| || n < |name|
      invariant p <= |pattern| && n <= |name| && nameNext <= |name| + 1
      invariant nameNext > 0 ==>
        && patternNext < |pattern| && pattern[patternNext] == '*' && patternNext <= p
        && (if p == patternNext then n == nameNext
            else n >= nameNext - 1 && n - (nameNext - 1) == p - (patternNext + 1)
                 && forall k :: patternNext < k < p ==> pattern[k] != '*')
      invariant nameNext == 0 ==> forall k :: 0 <= k < p ==> pattern[k] != '*'
      invariant Matches(pattern, name) <==> Open(pattern, name, nameNext > 0, patternNext, nameNext, p, n)
      decreases |pattern| - (if nameNext > 0 then patternNext + 1 else 0),
                |name| + 2 - (if nameNext > 0 && p == patternNext then nameNext + 1 else nameNext),
                |pattern| - p
    {
      MatchesHere(pattern, name, p, n);
      if p < |pattern| {
        if pattern[p] == '?' {
          if n < |name| {
            p, n := p + 1, n + 1;
            continue;
          }
        } else if pattern[p] == '*' {
          // The open answer moves to this star; by dominance the older one can be forgotten.
          ghost var passed := nameNext > 0 && patternNext < p;
          if passed {
            LaterStarDominates(pattern, name, patternNext, nameNext, p, n);
          }
          patternNext, nameNext := p, n + 1;
          p := p + 1;
          continue;
        } else {
          if n < |name| && name[n] == pattern[p] {
            p, n := p + 1, n + 1;
            continue;
          }
        }
      }
      // Nothing matches here: only the star's share of the answer is left.
      if 0 < nameNext <= |name| {
        p, n := patternNext, nameNext;
        continue;
      }
      return false;
    }
    MatchesHere(pattern, name, p, n);
    return true;
  }
}
