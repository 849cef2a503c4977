/**
 The glob matcher of mongoose: match_prefix. A pointer into the string is the string with a position, and
 reading at the end of a string gives the terminating NUL.
 */
module Glob {

  function CharAt(s: string, i: nat): char {
    if i < |s| then s[i] else '\0'
  }

  predicate CString(s: string) {
    '\0' !in s
  }

  // ------------------------------------------------------------ what a pattern means

  /** The end of the path segment at j: strcspn(s + j, "/") characters further. */
  function SegmentEnd(s: string, j: nat): (e: nat)
    requires j <= |s|
    ensures j <= e <= |s| && (e < |s| ==> s[e] == '/')
    ensures forall k | j <= k < e :: s[k] != '/'
    decreases |s| - j
  {
    if j == |s| || s[j] == '/' then j else SegmentEnd(s, j + 1)
  }

  /** The number of characters that write one star: "**" crosses path separators, "*" does not. */
  function StarWidth(p: string): (w: nat)
    requires p != "" && p[0] == '*'
    ensures 1 <= w <= |p|
  {
    if CharAt(p, 1) == '*' then 2 else 1
  }

  /** How far a star at j can reach. */
  function Reach(p: string, s: string, j: nat): (e: nat)
    requires p != "" && p[0] == '*' && j <= |s|
    ensures j <= e <= |s|
  {
    if StarWidth(p) == 2 then |s| else SegmentEnd(s, j)
  }

  /** The pattern p matches exactly the characters of s from position j up to e. A '$' matches the end of the
      string, and what the pattern says behind it is ignored. */
  ghost predicate Matches(p: string, s: string, j: nat, e: nat)
    requires j <= |s|
    decreases |p|
  {
    if p == "" then e == j
    else if p[0] == '$' then j == |s| && e == j
    else if p[0] == '*' then
      exists k: nat :: j <= k <= Reach(p, s, j) && Matches(p[StarWidth(p)..], s, k, e)
    else j < |s| && (p[0] == '?' || p[0] == s[j]) && Matches(p[1..], s, j + 1, e)
  }

  /** What the single patterns match: a question mark any character, a star any text within a path segment, two stars
      any text, a dollar sign nothing at the end of the string, and every other character itself. */
  lemma SinglesMatch(c: char, s: string, j: nat, e: nat)
    requires j <= |s| && c !in {'?', '*', '$'}
    ensures Matches("", s, j, e) <==> e == j
    ensures Matches("?", s, j, e) <==> j < |s| && e == j + 1
    ensures Matches([c], s, j, e) <==> j < |s| && s[j] == c && e == j + 1
    ensures Matches("*", s, j, e) <==> j <= e <= |s| && '/' !in s[j..e]
    ensures Matches("**", s, j, e) <==> j <= e <= |s|
    ensures Matches("$", s, j, e) <==> e == j == |s|
  {
    assert "?"[1..] == "" && [c][1..] == "";
    OneStar("*", s, j, e);
    OneStar("**", s, j, e);
    SegmentIs(s, j, e);
  }

  lemma StarReaches(p: string, rest: string, s: string, j: nat, e: nat) returns (k: nat)
    requires j <= |s| && p != "" && p[0] == '*' && rest == p[StarWidth(p)..] && Matches(p, s, j, e)
    ensures j <= k <= Reach(p, s, j) && Matches(rest, s, k, e)
  {
    k :| j <= k <= Reach(p, s, j) && Matches(p[StarWidth(p)..], s, k, e);
  }

  lemma StarMatches(p: string, rest: string, s: string, j: nat, k: nat, e: nat)
    requires j <= |s| && p != "" && p[0] == '*' && rest == p[StarWidth(p)..]
    requires j <= k <= Reach(p, s, j) && Matches(rest, s, k, e)
    ensures Matches(p, s, j, e)
  {
    assert Matches(p[StarWidth(p)..], s, k, e);
  }

  lemma OneStar(p: string, s: string, j: nat, e: nat)
    requires j <= |s| && p in {"*", "**"}
    ensures Matches(p, s, j, e) <==> j <= e <= Reach(p, s, j)
  {
    assert p[StarWidth(p)..] == "";
    if Matches(p, s, j, e) {
      var k := StarReaches(p, "", s, j, e);
    }
    if j <= e <= Reach(p, s, j) {
      StarMatches(p, "", s, j, e, e);
    }
  }

  lemma SegmentIs(s: string, j: nat, e: nat)
    requires j <= |s|
    ensures j <= e <= SegmentEnd(s, j) <==> j <= e <= |s| && '/' !in s[j..e]
  {
    var end := SegmentEnd(s, j);
    if j <= e <= |s| {
      assert end < e ==> s[j..e][end - j] == '/';
    }
  }

  /** p matches up to some place and q from there. */
  ghost predicate InTurn(p: string, q: string, s: string, j: nat, e: nat)
    requires j <= |s|
  {
    exists k: nat :: k <= |s| && Matches(p, s, j, k) && Matches(q, s, k, e)
  }

  /** A pattern after a pattern matches a text after a text, as long as no two stars come together. */
  lemma {:induction false} ConcatenationMatches(p: string, q: string, s: string, j: nat, e: nat)
    requires j <= |s| && '$' !in p && (p != "" && q != "" && p[|p| - 1] == '*' ==> q[0] != '*')
    ensures Matches(p + q, s, j, e) <==> InTurn(p, q, s, j, e)
    decreases |p|
  {
    if p == "" {
      assert p + q == q;
    } else if p[0] == '*' {
      var rest := p[StarWidth(p)..];
      assert StarWidth(p + q) == StarWidth(p) && (p + q)[StarWidth(p)..] == rest + q;
      if Matches(p + q, s, j, e) {
        var i := StarReaches(p + q, rest + q, s, j, e);
        ConcatenationMatches(rest, q, s, i, e);
        InTurnBehindStar(p, q, rest, s, j, i, e);
      }
      if InTurn(p, q, s, j, e) {
        var i := StarInFront(p, q, rest, s, j, e);
        ConcatenationMatches(rest, q, s, i, e);
        StarMatches(p + q, rest + q, s, j, i, e);
      }
    } else {
      assert (p + q)[1..] == p[1..] + q && (p + q)[0] == p[0];
      if j < |s| {
        ConcatenationMatches(p[1..], q, s, j + 1, e);
      }
    }
  }

  lemma InTurnBehindStar(p: string, q: string, rest: string, s: string, j: nat, i: nat, e: nat)
    requires j <= |s| && p != "" && p[0] == '*' && rest == p[StarWidth(p)..] && j <= i <= Reach(p, s, j)
    requires InTurn(rest, q, s, i, e)
    ensures InTurn(p, q, s, j, e)
  {
    var k: nat :| k <= |s| && Matches(rest, s, i, k) && Matches(q, s, k, e);
    StarMatches(p, rest, s, j, i, k);
  }

  lemma StarInFront(p: string, q: string, rest: string, s: string, j: nat, e: nat) returns (i: nat)
    requires j <= |s| && p != "" && p[0] == '*' && rest == p[StarWidth(p)..] && InTurn(p, q, s, j, e)
    ensures j <= i <= Reach(p, s, j) && InTurn(rest, q, s, i, e)
  {
    var k: nat :| k <= |s| && Matches(p, s, j, k) && Matches(q, s, k, e);
    i := StarReaches(p, rest, s, j, k);
  }

  /** res is the length of the longest match at j, or -1 when nothing matches there. */
  ghost predicate IsLongest(p: string, s: string, j: nat, res: int)
    requires j <= |s|
  {
    && -1 <= res <= |s| - j
    && (res >= 0 ==> Matches(p, s, j, j + res))
    && forall e: nat | Matches(p, s, j, e) :: e <= j + res
  }

  lemma {:induction false} MatchesInside(p: string, s: string, j: nat, e: nat)
    requires j <= |s| && Matches(p, s, j, e)
    ensures j <= e <= |s|
    decreases |p|
  {
    if p != "" && p[0] == '*' {
      var k: nat :| j <= k <= Reach(p, s, j) && Matches(p[StarWidth(p)..], s, k, e);
      MatchesInside(p[StarWidth(p)..], s, k, e);
    } else if p != "" && p[0] != '$' {
      MatchesInside(p[1..], s, j + 1, e);
    }
  }

  /** A match that starts earlier and ends later can be taken over by the later start: the two runs over the
      string meet at a star. So a star that takes as much as it can never costs length. */
  lemma {:induction false} LaterStartReachesAsFar(p: string, s: string, j1: nat, e1: nat, j2: nat, e2: nat)
    requires j1 <= j2 <= |s| && e2 <= e1
    requires Matches(p, s, j1, e1) && Matches(p, s, j2, e2)
    ensures Matches(p, s, j2, e1)
    decreases |p|
  {
    if p != "" && p[0] == '*' {
      var rest := p[StarWidth(p)..];
      var k1: nat :| j1 <= k1 <= Reach(p, s, j1) && Matches(rest, s, k1, e1);
      var k2: nat :| j2 <= k2 <= Reach(p, s, j2) && Matches(rest, s, k2, e2);
      if k1 <= k2 {
        LaterStartReachesAsFar(rest, s, k1, e1, k2, e2);
      } else {
        SegmentsNest(s, j1, j2, k1);
      }
    } else if p != "" && p[0] != '$' {
      LaterStartReachesAsFar(p[1..], s, j1 + 1, e1, j2 + 1, e2);
    }
  }

  lemma SegmentsNest(s: string, j1: nat, j2: nat, k: nat)
    requires j1 <= j2 <= k <= |s|
    ensures k <= SegmentEnd(s, j1) ==> k <= SegmentEnd(s, j2)
  {
  }

  // ------------------------------------------------------------ alternatives

  function FirstBar(p: string): (i: nat)
    ensures i <= |p| && '|' !in p[..i]
    ensures i < |p| ==> p[i] == '|'
  {
    if p == "" || p[0] == '|' then 0 else 1 + FirstBar(p[1..])
  }

  function Alternatives(p: string): (alts: seq<string>)
    ensures |alts| > 0
    decreases |p|
  {
    var i := FirstBar(p);
    if i == |p| then [p] else [p[..i]] + Alternatives(p[i + 1..])
  }

  function JoinBars(alts: seq<string>): string
    requires |alts| > 0
  {
    if |alts| == 1 then alts[0] else alts[0] + "|" + JoinBars(alts[1..])
  }

  /** The alternatives are the pattern cut at its bars, and nothing else. */
  lemma {:induction false} AlternativesAreThePattern(p: string)
    ensures JoinBars(Alternatives(p)) == p
    ensures forall k | 0 <= k < |Alternatives(p)| :: '|' !in Alternatives(p)[k]
    decreases |p|
  {
    var i := FirstBar(p);
    if i < |p| {
      var others := Alternatives(p[i + 1..]);
      AlternativesAreThePattern(p[i + 1..]);
      JoinOneMore(p[..i], others);
      assert p == p[..i] + "|" + p[i + 1..];
    }
  }

  lemma JoinOneMore(first: string, others: seq<string>)
    requires others != []
    ensures JoinBars([first] + others) == first + "|" + JoinBars(others)
  {
    assert ([first] + others)[1..] == others;
  }

  /** The alternative matches at least one character. */
  ghost predicate MatchesSome(p: string, s: string, j: nat)
    requires j <= |s|
  {
    exists e: nat :: e > j && Matches(p, s, j, e)
  }

  /** The first alternative that matches at least one character decides; if none does, the last one. */
  ghost predicate Decides(alts: seq<string>, k: nat, s: string, j: nat)
    requires j <= |s| && k < |alts|
  {
    && (MatchesSome(alts[k], s, j) || k == |alts| - 1)
    && forall i | 0 <= i < k :: !MatchesSome(alts[i], s, j)
  }

  ghost predicate IsResult(alts: seq<string>, s: string, j: nat, res: int)
    requires j <= |s|
  {
    exists k: nat :: k < |alts| && Decides(alts, k, s, j) && IsLongest(alts[k], s, j, res)
  }

  lemma LongestIsPositive(p: string, s: string, j: nat, res: int)
    requires j <= |s| && IsLongest(p, s, j, res)
    ensures res > 0 <==> MatchesSome(p, s, j)
  {
  }

  lemma FirstDecides(first: string, others: seq<string>, s: string, j: nat, res: int)
    requires j <= |s| && IsLongest(first, s, j, res) && res > 0
    ensures IsResult([first] + others, s, j, res)
  {
    LongestIsPositive(first, s, j, res);
    assert Decides([first] + others, 0, s, j);
  }

  lemma OtherDecides(first: string, others: seq<string>, s: string, j: nat, res: int)
    requires j <= |s| && !MatchesSome(first, s, j) && IsResult(others, s, j, res)
    ensures IsResult([first] + others, s, j, res)
  {
    var k: nat :| k < |others| && Decides(others, k, s, j) && IsLongest(others[k], s, j, res);
    var alts := [first] + others;
    forall i | 0 <= i < k + 1
      ensures !MatchesSome(alts[i], s, j)
    {
      assert i > 0 ==> alts[i] == others[i - 1];
    }
    assert alts[k + 1] == others[k] && Decides(alts, k + 1, s, j);
  }

  /** What the callers ask: the result is positive exactly when some alternative matches a character. */
  lemma PositiveMeansSomeAlternative(alts: seq<string>, s: string, j: nat, res: int)
    requires j <= |s| && IsResult(alts, s, j, res)
    ensures res > 0 <==> exists k: nat :: k < |alts| && MatchesSome(alts[k], s, j)
  {
    var k: nat :| k < |alts| && Decides(alts, k, s, j) && IsLongest(alts[k], s, j, res);
    LongestIsPositive(alts[k], s, j, res);
  }

  /** There is one result: the relation is a function of the pattern and the string. */
  lemma ResultIsUnique(alts: seq<string>, s: string, j: nat, r1: int, r2: int)
    requires j <= |s| && IsResult(alts, s, j, r1) && IsResult(alts, s, j, r2)
    ensures r1 == r2
  {
    var k1: nat :| k1 < |alts| && Decides(alts, k1, s, j) && IsLongest(alts[k1], s, j, r1);
    var k2: nat :| k2 < |alts| && Decides(alts, k2, s, j) && IsLongest(alts[k2], s, j, r2);
    assert k1 == k2;
    if r1 >= 0 {
      assert Matches(alts[k1], s, j, j + r1);
    }
    if r2 >= 0 {
      assert Matches(alts[k2], s, j, j + r2);
    }
  }

  // ------------------------------------------------------------ the matcher

  method MatchPrefix(pattern: string, str: string, at: nat) returns (res: int)
    requires CString(pattern) && CString(str) && at <= |str|
    ensures IsResult(Alternatives(pattern), str, at, res)
    decreases |pattern|, 2
  {
    var bar := FirstBar(pattern);
    if bar < |pattern| {
      res := MatchPrefix(pattern[..bar], str, at);
      var others := pattern[bar + 1..];
      SingleAlternative(pattern[..bar], str, at, res);
      LongestIsPositive(pattern[..bar], str, at, res);
      if res > 0 {
        FirstDecides(pattern[..bar], Alternatives(others), str, at, res);
        return res;
      }
      res := MatchPrefix(others, str, at);
      OtherDecides(pattern[..bar], Alternatives(others), str, at, res);
      return res;
    }
    res := MatchOne(pattern, str, at);
    assert Decides([pattern], 0, str, at);
  }

  lemma SingleAlternative(p: string, s: string, j: nat, res: int)
    requires j <= |s| && '|' !in p && IsResult(Alternatives(p), s, j, res)
    ensures IsLongest(p, s, j, res)
  {
    if FirstBar(p) < |p| {
      assert false;
    }
  }

  /** The part of match_prefix behind the search for '|'. */
  method MatchOne(pattern: string, str: string, at: nat) returns (res: int)
    requires CString(pattern) && CString(str) && at <= |str| && '|' !in pattern
    ensures IsLongest(pattern, str, at, res)
    decreases |pattern|, 1
  {
    var i, j := 0, at;
    while i < |pattern|
      invariant i <= |pattern| && at <= j <= |str|
      invariant forall e: nat :: Matches(pattern, str, at, e) <==> Matches(pattern[i..], str, j, e)
    {
      assert pattern[i..][1..] == pattern[i + 1..];
      if pattern[i] == '?' && CharAt(str, j) != '\0' {
      } else if pattern[i] == '$' {
        return if CharAt(str, j) == '\0' then j - at else -1;
      } else if pattern[i] == '*' {
        res := MatchStar(pattern[i..], str, j);
        if res == -1 {
          NoMatchAt(pattern[i..], str, j);
        }
        return if res == -1 then -1 else j - at + res;
      } else if pattern[i] != CharAt(str, j) {
        return -1;
      }
      assert CharAt(str, j) != '\0';
      i, j := i + 1, j + 1;
    }
    assert pattern[i..] == "";
    return j - at;
  }

  /** The branch for a star: how far it reaches, and the lengths tried downwards. */
  method MatchStar(pattern: string, str: string, j: nat) returns (res: int)
    requires CString(pattern) && CString(str) && j <= |str| && '|' !in pattern && pattern != "" && pattern[0] == '*'
    ensures IsLongest(pattern, str, j, res)
    decreases |pattern|, 0
  {
    var i, len := 1, 0;
    if CharAt(pattern, i) == '*' {
      i := i + 1;
      len := |str| - j;
    } else {
      len := SegmentEnd(str, j) - j;
    }
    ghost var reach := Reach(pattern, str, j);
    if i == |pattern| {
      StarAtTheEnd(pattern, str, j);
      return len;
    }
    res := MatchOne(pattern[i..], str, j + len);
    while res == -1 && len > 0
      invariant 0 <= len <= reach - j && IsLongest(pattern[i..], str, j + len, res)
      invariant forall k: nat, e: nat | j + len < k <= reach :: !Matches(pattern[i..], str, k, e)
    {
      NoMatchAt(pattern[i..], str, j + len);
      len := len - 1;
      res := MatchOne(pattern[i..], str, j + len);
    }
    GreedyStarIsLongest(pattern, str, j, len, res);
    return if res == -1 then -1 else res + len;
  }

  lemma StarAtTheEnd(p: string, s: string, j: nat)
    requires p != "" && p[0] == '*' && StarWidth(p) == |p| && j <= |s|
    ensures IsLongest(p, s, j, Reach(p, s, j) - j)
  {
    var reach := Reach(p, s, j);
    assert p[StarWidth(p)..] == "" && Matches("", s, reach, reach);
    assert Matches(p, s, j, reach);
    forall e: nat | Matches(p, s, j, e)
      ensures e <= reach
    {
      var k := StarEnd(p, s, j, e);
    }
  }

  lemma NoMatchAt(p: string, s: string, j: nat)
    requires j <= |s| && IsLongest(p, s, j, -1)
    ensures forall e: nat :: !Matches(p, s, j, e)
  {
    forall e: nat
      ensures !Matches(p, s, j, e)
    {
      if Matches(p, s, j, e) {
        MatchesInside(p, s, j, e);
      }
    }
  }

  lemma StarEnd(p: string, s: string, j: nat, e: nat) returns (k: nat)
    requires p != "" && p[0] == '*' && j <= |s| && Matches(p, s, j, e)
    ensures j <= k <= Reach(p, s, j) && Matches(p[StarWidth(p)..], s, k, e)
  {
    k :| j <= k <= Reach(p, s, j) && Matches(p[StarWidth(p)..], s, k, e);
  }

  /** Trying the lengths of a star from the longest down and stopping at the first success finds the longest
      match of the whole. */
  lemma GreedyStarIsLongest(p: string, s: string, j: nat, len: nat, res: int)
    requires p != "" && p[0] == '*' && j <= |s| && j + len <= Reach(p, s, j)
    requires IsLongest(p[StarWidth(p)..], s, j + len, res) && (res == -1 ==> len == 0)
    requires forall k: nat, e: nat | j + len < k <= Reach(p, s, j) :: !Matches(p[StarWidth(p)..], s, k, e)
    ensures IsLongest(p, s, j, if res == -1 then -1 else len + res)
  {
    var rest := p[StarWidth(p)..];
    if res == -1 {
      NoMatchAt(rest, s, j);
    }
    forall e: nat | Matches(p, s, j, e)
      ensures res >= 0 && e <= j + len + res
    {
      var k := StarEnd(p, s, j, e);
      if res >= 0 && e > j + len + res {
        LaterStartReachesAsFar(rest, s, k, e, j + len, j + len + res);
      }
    }
  }
}
