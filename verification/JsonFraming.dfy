/**
 Which texts the stream framer, which does not follow escapes, cuts out as a whole.
 */
module JsonFraming {
  import opened Wrappers
  import opened JsonText
  import opened JsonNode
  import opened JsonWriter
  import opened JsonParser
  import opened JsonMarks
  import opened JsonRoundTrip
  import opened JsonStream

  /** The whole text is its own first object. */
  predicate Framed(t: string) {
    t != [] && FirstFrame(t) == Some((0, |t| - 1))
  }

  function Quotes(s: string): nat {
    if s == [] then 0 else (if s[0] == '\"' then 1 else 0) + Quotes(s[1..])
  }

  predicate Bracket(c: char) {
    c in {'[', ']', '{', '}'}
  }

  /** The brackets that stand outside quotations, when every quote opens or closes one. */
  function Skeleton(s: string): string
    decreases |s|
  {
    if s == [] then ""
    else if s[0] == '\"' then SkeletonInQuote(s[1..])
    else if Bracket(s[0]) then [s[0]] + Skeleton(s[1..])
    else Skeleton(s[1..])
  }

  function SkeletonInQuote(s: string): string
    decreases |s|
  {
    if s == [] then "" else if s[0] == '\"' then Skeleton(s[1..]) else SkeletonInQuote(s[1..])
  }

  /** How many brackets l stay open. Brackets of the other kind do not count. */
  function Balance(l: char, s: string): int {
    if s == [] then 0 else (if s[0] == l then 1 else if s[0] == Closer(l) then -1 else 0) + Balance(l, s[1..])
  }

  /** The bracket at the start is closed at the end and not before. */
  ghost predicate Group(g: string) {
    && g != [] && Opener(g[0]) && Balance(g[0], g) == 0
    && forall k | 0 < k < |g| :: Balance(g[0], g[..k]) > 0
  }

  /** Nothing but groups, one after the other. */
  ghost predicate Groups(u: string)
    decreases |u|
  {
    u == "" || exists k | 0 < k <= |u| :: Group(u[..k]) && Groups(u[k..])
  }

  // ------------------------------------------------------------ the number of quotes

  lemma {:induction false} QuoteParity(s: string)
    requires SkipQuote(s).Some?
    ensures Quotes(s) == 1 + Quotes(SkipQuote(s).value)
  {
    if s[0] != '\"' {
      QuoteParity(s[1..]);
    }
  }

  lemma {:induction false} BracketParity(l: char, r: char, s: string, depth: nat)
    requires '\"' !in {l, r} && SkipBracket(l, r, s, depth).Some?
    ensures Quotes(s) % 2 == Quotes(SkipBracket(l, r, s, depth).value) % 2
    decreases |s|
  {
    if depth > 0 {
      if s[0] == '\"' {
        QuoteParity(s[1..]);
        BracketParity(l, r, SkipQuote(s[1..]).value, depth);
      } else {
        BracketParity(l, r, s[1..], if s[0] == r then depth - 1 else if s[0] == l then depth + 1 else depth);
      }
    }
  }

  lemma {:induction false} FindParity(ch: char, s: string)
    requires ch != '\"' && StreamFind(ch, s).Some?
    ensures Quotes(s) % 2 == Quotes(StreamFind(ch, s).value) % 2
    decreases |s|
  {
    if s[0] != ch {
      if s[0] == '[' || s[0] == '{' {
        var r := if s[0] == '[' then ']' else '}';
        BracketParity(s[0], r, s[1..], 1);
        FindParity(ch, SkipBracket(s[0], r, s[1..], 1).value);
      } else if s[0] == '\"' {
        QuoteParity(s[1..]);
        FindParity(ch, SkipQuote(s[1..]).value);
      } else {
        FindParity(ch, s[1..]);
      }
    }
  }

  /** Any text that is framed has an even number of quotes. */
  lemma FramedHasEvenQuotes(t: string)
    requires Framed(t)
    ensures Quotes(t) % 2 == 0
  {
    FramedParts(t);
    FindLastIsEven(Closer(t[0]), t[1..]);
  }

  predicate FindsLast(ch: char, s: string) {
    StreamFind(ch, s).Some? && |StreamFind(ch, s).value| == 1
  }

  lemma FramedParts(t: string)
    ensures Framed(t) <==> t != [] && Opener(t[0]) && FindsLast(Closer(t[0]), t[1..])
  {
  }

  lemma FindLastIsEven(ch: char, s: string)
    requires ch != '\"' && FindsLast(ch, s)
    ensures Quotes(s) % 2 == 0 && s != [] && s[|s| - 1] == ch
  {
    var u := StreamFind(ch, s).value;
    FindParity(ch, s);
    FindStartsWith(ch, s);
    OneQuiet(ch);
    assert u == [ch];
  }

  lemma OneQuiet(c: char)
    requires c != '\"'
    ensures Quotes([c]) == 0
  {
    assert [c][1..] == "";
  }

  ghost predicate Suffix(u: string, s: string) {
    |u| <= |s| && u == s[|s| - |u|..]
  }

  lemma SuffixOfSuffix(u: string, t: string, s: string)
    requires Suffix(u, t) && Suffix(t, s)
    ensures Suffix(u, s)
  {
  }

  lemma {:induction false} FindStartsWith(ch: char, s: string)
    requires StreamFind(ch, s).Some?
    ensures StreamFind(ch, s).value[0] == ch && Suffix(StreamFind(ch, s).value, s)
    decreases |s|
  {
    if s[0] != ch {
      var t := s[1..];
      if s[0] == '[' || s[0] == '{' {
        var r := if s[0] == '[' then ']' else '}';
        BracketIsSuffix(s[0], r, s[1..], 1);
        t := SkipBracket(s[0], r, s[1..], 1).value;
      } else if s[0] == '\"' {
        QuoteIsSuffix(s[1..]);
        t := SkipQuote(s[1..]).value;
      }
      FindStartsWith(ch, t);
      SuffixOfSuffix(t, s[1..], s);
      SuffixOfSuffix(StreamFind(ch, t).value, t, s);
    }
  }

  lemma {:induction false} QuoteIsSuffix(s: string)
    requires SkipQuote(s).Some?
    ensures Suffix(SkipQuote(s).value, s)
  {
    if s[0] != '\"' {
      QuoteIsSuffix(s[1..]);
    }
  }

  lemma {:induction false} BracketIsSuffix(l: char, r: char, s: string, depth: nat)
    requires SkipBracket(l, r, s, depth).Some?
    ensures Suffix(SkipBracket(l, r, s, depth).value, s)
    decreases |s|
  {
    if depth > 0 {
      if s[0] == r {
        BracketIsSuffix(l, r, s[1..], depth - 1);
      } else if s[0] == l {
        BracketIsSuffix(l, r, s[1..], depth + 1);
      } else if s[0] == '\"' {
        QuoteIsSuffix(s[1..]);
        BracketIsSuffix(l, r, SkipQuote(s[1..]).value, depth);
      } else {
        BracketIsSuffix(l, r, s[1..], depth);
      }
    }
  }

  // ------------------------------------------------------------ the skeleton decides

  function SkeletonOf(s: Option<string>): Option<string> {
    if s.None? then None else Some(Skeleton(s.value))
  }

  lemma {:induction false} SkipQuoteSkeleton(s: string)
    requires '\0' !in s
    ensures SkeletonInQuote(s) == if SkipQuote(s).None? then "" else Skeleton(SkipQuote(s).value)
  {
    if s != [] && s[0] != '\"' {
      SkipQuoteSkeleton(s[1..]);
    }
  }

  lemma {:induction false} SkipBracketSkeleton(l: char, r: char, s: string, depth: nat)
    requires '\0' !in s && Brackets(l, r)
    ensures SkipBracket(l, r, Skeleton(s), depth) == SkeletonOf(SkipBracket(l, r, s, depth))
    decreases |s|
  {
    if depth > 0 && s != [] {
      if s[0] == '\"' {
        SkipQuoteSkeleton(s[1..]);
        if SkipQuote(s[1..]).Some? {
          QuoteSuffix(s[1..]);
          SkipBracketSkeleton(l, r, SkipQuote(s[1..]).value, depth);
        }
      } else {
        SkipBracketSkeleton(l, r, s[1..], if s[0] == r then depth - 1 else if s[0] == l then depth + 1 else depth);
        if Bracket(s[0]) {
          assert Skeleton(s)[1..] == Skeleton(s[1..]);
        }
      }
    }
  }

  lemma {:induction false} StreamFindSkeleton(ch: char, s: string)
    requires '\0' !in s && ch in {']', '}'}
    ensures StreamFind(ch, Skeleton(s)) == SkeletonOf(StreamFind(ch, s))
    decreases |s|
  {
    if s != [] && s[0] != ch {
      if s[0] == '[' || s[0] == '{' {
        var r := if s[0] == '[' then ']' else '}';
        var t := SkipBracket(s[0], r, s[1..], 1);
        assert Skeleton(s)[1..] == Skeleton(s[1..]);
        SkipBracketSkeleton(s[0], r, s[1..], 1);
        if t.Some? {
          BracketSuffix(s[0], r, s[1..], 1);
          StreamFindSkeleton(ch, t.value);
        }
      } else if s[0] == '\"' {
        SkipQuoteSkeleton(s[1..]);
        if SkipQuote(s[1..]).Some? {
          QuoteSuffix(s[1..]);
          StreamFindSkeleton(ch, SkipQuote(s[1..]).value);
        }
      } else if !Bracket(s[0]) {
        StreamFindSkeleton(ch, s[1..]);
      }
    }
  }

  /** A text whose skeleton is empty and that does not end in a quote ends inside a quotation. */
  lemma {:induction false} EndsInQuote(s: string)
    requires s != [] && Bracket(s[|s| - 1])
    ensures Skeleton(s) == "" ==> Quotes(s) % 2 == 1
    ensures SkeletonInQuote(s) == "" ==> Quotes(s) % 2 == 0
    decreases |s|
  {
    if |s| > 1 {
      EndsInQuote(s[1..]);
    }
  }

  /** The outermost brackets of a text. */
  predicate Bracketed(t: string) {
    |t| >= 2 && Opener(t[0]) && t[|t| - 1] == Closer(t[0])
  }

  /** Which texts without NUL are framed: those in outer brackets that have an even number of quotes and between
      whose outer brackets the brackets outside quotations, when every quote counts as one, are groups. */
  lemma FramedIff(t: string)
    requires '\0' !in t
    ensures Framed(t) <==> Bracketed(t) && Quotes(t) % 2 == 0 && Groups(Skeleton(t[1..|t| - 1]))
  {
    FramedParts(t);
    if t != [] && Opener(t[0]) {
      var ch, s := Closer(t[0]), t[1..];
      assert Quotes(t) == Quotes(s);
      if FindsLast(ch, s) {
        FindLastIsEven(ch, s);
      }
      if Bracketed(t) && Quotes(t) % 2 == 0 {
        SkeletonOfBracketed(t);
        FindLastIff(ch, s);
        OnlyBrackets(t[1..|t| - 1]);
        GroupsAreSkipped(ch, Skeleton(t[1..|t| - 1]));
      }
    }
  }

  lemma SkeletonOfBracketed(t: string)
    requires Bracketed(t) && Quotes(t) % 2 == 0
    ensures Skeleton(t[1..]) == Skeleton(t[1..|t| - 1]) + [t[|t| - 1]]
    ensures Skeleton(t) == [t[0]] + Skeleton(t[1..])
  {
    var inner, c := t[1..|t| - 1], t[|t| - 1];
    assert t[1..] == inner + [c];
    SkeletonBefore(inner, c);
  }

  lemma {:induction false} SkeletonBefore(s: string, c: char)
    requires Bracket(c)
    ensures Quotes(s + [c]) == Quotes(s)
    ensures Skeleton(s + [c]) == if Quotes(s) % 2 == 0 then Skeleton(s) + [c] else Skeleton(s)
    ensures SkeletonInQuote(s + [c]) == if Quotes(s) % 2 == 0 then SkeletonInQuote(s) else SkeletonInQuote(s) + [c]
    decreases |s|
  {
    if s == [] {
      assert s + [c] == [c] && [c][1..] == "";
    } else {
      assert (s + [c])[1..] == s[1..] + [c];
      SkeletonBefore(s[1..], c);
    }
  }

  lemma {:induction false} OnlyBrackets(s: string)
    ensures forall i | 0 <= i < |Skeleton(s)| :: Bracket(Skeleton(s)[i])
    ensures forall i | 0 <= i < |SkeletonInQuote(s)| :: Bracket(SkeletonInQuote(s)[i])
    decreases |s|
  {
    if s != [] {
      OnlyBrackets(s[1..]);
    }
  }

  /** In front of a bracket ch exactly the groups are skipped. */
  lemma {:induction false} GroupsAreSkipped(ch: char, u: string)
    requires ch in {']', '}'} && forall i | 0 <= i < |u| :: Bracket(u[i])
    ensures FindsLast(ch, u + [ch]) <==> Groups(u)
    decreases |u|
  {
    var s := u + [ch];
    if u == [] {
      assert s == [ch];
    } else if Opener(u[0]) {
      var t := SkipBracket(u[0], Closer(u[0]), s[1..], 1);
      if FindsLast(ch, s) {
        SkipIsSuffix(u[0], s[1..], 1);
        var k := |s| - |t.value|;
        assert t.value == s[k..] == u[k..] + [ch];
        GroupIsSkipped(u, ch, k);
        GroupsAreSkipped(ch, u[k..]);
        assert Group(u[..k]) && Groups(u[k..]);
      }
      if Groups(u) {
        var k :| 0 < k <= |u| && Group(u[..k]) && Groups(u[k..]);
        GroupIsSkipped(u, ch, k);
        GroupsAreSkipped(ch, u[k..]);
      }
    } else {
      assert forall k | 0 < k <= |u| :: u[..k][0] == u[0];
    }
  }

  lemma SkipIsSuffix(l: char, s: string, depth: nat)
    requires SkipBracket(l, Closer(l), s, depth).Some?
    ensures Suffix(SkipBracket(l, Closer(l), s, depth).value, s)
  {
    BracketIsSuffix(l, Closer(l), s, depth);
  }

  /** The first k characters of u are skipped together if and only if they are a group. */
  lemma GroupIsSkipped(u: string, ch: char, k: nat)
    requires Bracket(ch) && 0 < k <= |u| && Opener(u[0]) && forall i | 0 <= i < |u| :: Bracket(u[i])
    ensures SkipBracket(u[0], Closer(u[0]), (u + [ch])[1..], 1) == Some(u[k..] + [ch]) <==> Group(u[..k])
  {
    var l, s := u[0], (u + [ch])[1..];
    assert s[k - 1..] == u[k..] + [ch];
    SkippedIff(l, s, 1, k - 1);
    forall j | 0 < j <= k
      ensures Balance(l, u[..k][..j]) == 1 + Balance(l, s[..j - 1])
    {
      assert u[..k][..j] == u[..j] && u[..j][1..] == s[..j - 1];
    }
    assert u[..k][..k] == u[..k];
    if Group(u[..k]) {
      forall j | 0 <= j < k - 1
        ensures 1 + Balance(l, s[..j]) > 0
      {
        assert Balance(l, u[..k][..j + 1]) == 1 + Balance(l, s[..j]);
      }
    }
  }

  /** Depth open brackets are first closed in front of s[k..]. */
  ghost predicate Closes(l: char, s: string, depth: nat, k: nat) {
    && k <= |s| && depth + Balance(l, s[..k]) == 0
    && forall j | 0 <= j < k :: depth + Balance(l, s[..j]) > 0
  }

  lemma {:induction false} SkippedIff(l: char, s: string, depth: nat, k: nat)
    requires Opener(l) && k <= |s| && forall i | 0 <= i < |s| :: Bracket(s[i])
    ensures SkipBracket(l, Closer(l), s, depth) == Some(s[k..]) <==> Closes(l, s, depth, k)
    decreases |s|
  {
    assert s[..0] == "";
    if depth == 0 {
      assert |s[k..]| == |s| - k;
    } else if k == 0 {
      assert s[k..] == s;
    } else {
      var next := if s[0] == Closer(l) then depth - 1 else if s[0] == l then depth + 1 else depth;
      SkippedIff(l, s[1..], next, k - 1);
      assert s[k..] == s[1..][k - 1..];
      forall j | 0 < j <= k
        ensures depth + Balance(l, s[..j]) == next + Balance(l, s[1..][..j - 1])
      {
        assert s[..j][1..] == s[1..][..j - 1];
      }
      if Closes(l, s, depth, k) {
        forall j | 0 <= j < k - 1
          ensures next + Balance(l, s[1..][..j]) > 0
        {
          assert depth + Balance(l, s[..j + 1]) > 0;
        }
      }
    }
  }

  lemma FramedIsFind(l: char, s: string)
    requires Opener(l)
    ensures Framed([l] + s) <==> FindsLast(Closer(l), s)
  {
    assert ([l] + s)[1..] == s;
    FramedParts([l] + s);
  }

  lemma FindLastIff(ch: char, s: string)
    requires '\0' !in s && ch in {']', '}'} && s != [] && s[|s| - 1] == ch
    ensures FindsLast(ch, s) <==> Quotes(s) % 2 == 0 && FindsLast(ch, Skeleton(s))
  {
    StreamFindSkeleton(ch, s);
    if StreamFind(ch, s).Some? {
      FindStartsWith(ch, s);
      FindParity(ch, s);
      LastIff(ch, StreamFind(ch, s).value);
    }
  }

  lemma LastIff(ch: char, u: string)
    requires ch in {']', '}'} && u != [] && u[0] == ch && u[|u| - 1] == ch
    ensures |u| == 1 <==> Quotes(u) % 2 == 0 && |Skeleton(u)| == 1
  {
    SkeletonOfRest(u);
    if |u| == 1 {
      assert u[1..] == "" && Quotes(u) == 0;
    }
  }

  /** A text that starts with a closing bracket and has nothing else in its skeleton is that bracket alone, or its
      end is quoted. */
  lemma SkeletonOfRest(u: string)
    requires u != [] && u[0] in {']', '}'} && Bracket(u[|u| - 1])
    ensures |Skeleton(u)| >= 1 && (|u| == 1 ==> |Skeleton(u)| == 1)
    ensures |u| > 1 && |Skeleton(u)| == 1 ==> Quotes(u) % 2 == 1
  {
    assert Skeleton(u) == [u[0]] + Skeleton(u[1..]);
    if |u| > 1 {
      EndsInQuote(u[1..]);
    }
  }

  /** Documents whose only brackets are their own are framed exactly when their quotes are paired. */
  lemma FlatIsFramedIff(l: char, inner: string)
    requires Opener(l) && '\0' !in inner && forall i | 0 <= i < |inner| :: !Bracket(inner[i])
    ensures Framed([l] + inner + [Closer(l)]) <==> Quotes(inner) % 2 == 0
  {
    var t := [l] + inner + [Closer(l)];
    InsideBrackets(l, inner, Closer(l));
    SkeletonBefore(inner, Closer(l));
    FlatSkeleton(inner);
    FramedIff(t);
  }

  lemma InsideBrackets(l: char, inner: string, r: char)
    requires '\0' !in inner && Bracket(l) && Bracket(r)
    ensures var t := [l] + inner + [r];
      '\0' !in t && t[0] == l && t[|t| - 1] == r && t[1..|t| - 1] == inner && Quotes(t) == Quotes(inner + [r])
  {
    var t := [l] + inner + [r];
    assert t[1..] == inner + [r] && t[1..|t| - 1] == inner;
  }

  lemma {:induction false} FlatSkeleton(s: string)
    requires forall i | 0 <= i < |s| :: !Bracket(s[i])
    ensures Skeleton(s) == SkeletonInQuote(s) == ""
    decreases |s|
  {
    if s != [] {
      FlatSkeleton(s[1..]);
    }
  }

  // ------------------------------------------------------------ printed documents

  lemma {:induction false} StreamFindIsFind(ch: char, s: string)
    requires '\0' !in s
    ensures StreamFind(ch, s) == Find(ch, s)
    decreases |s|
  {
    if s != [] && s[0] != ch {
      if s[0] == '[' || s[0] == '{' {
        var r := if s[0] == '[' then ']' else '}';
        var t := SkipBracket(s[0], r, s[1..], 1);
        if t.Some? {
          BracketSuffix(s[0], r, s[1..], 1);
          StreamFindIsFind(ch, t.value);
        }
      } else if s[0] == '\"' {
        var t := SkipQuote(s[1..]);
        if t.Some? {
          QuoteSuffix(s[1..]);
          StreamFindIsFind(ch, t.value);
        }
      } else {
        StreamFindIsFind(ch, s[1..]);
      }
    }
  }

  lemma {:induction false} QuoteSuffix(s: string)
    requires SkipQuote(s).Some? && '\0' !in s
    ensures '\0' !in SkipQuote(s).value
  {
    if s[0] != '\"' {
      QuoteSuffix(s[1..]);
    }
  }

  lemma {:induction false} BracketSuffix(l: char, r: char, s: string, depth: nat)
    requires SkipBracket(l, r, s, depth).Some? && '\0' !in s
    ensures '\0' !in SkipBracket(l, r, s, depth).value
    decreases |s|
  {
    if depth > 0 {
      if s[0] == r {
        BracketSuffix(l, r, s[1..], depth - 1);
      } else if s[0] == l {
        BracketSuffix(l, r, s[1..], depth + 1);
      } else if s[0] == '\"' {
        QuoteSuffix(s[1..]);
        BracketSuffix(l, r, SkipQuote(s[1..]).value, depth);
      } else {
        BracketSuffix(l, r, s[1..], depth);
      }
    }
  }

  lemma FindSeparator(ch: char, c: char, rest: string)
    requires c in {',', ':'} && ch != c
    ensures Find(ch, [c] + rest) == Find(ch, rest)
  {
    assert ([c] + rest)[1..] == rest;
  }

  /** A search for a closing bracket steps over a printed list of children. */
  lemma {:induction false} FindPastList(ch: char, cs: seq<Node>, inArray: bool, rest: string)
    requires ch in {']', '}'} && AllPrintable(cs, inArray)
    ensures Find(ch, RenderList(cs, Compact, inArray, true) + rest) == Find(ch, rest)
    decreases cs
  {
    if cs == [] {
      assert "" + rest == rest;
    } else {
      var tail := RenderList(cs[1..], Compact, inArray, true) + rest;
      var after := if |cs| > 1 then [','] + tail else rest;
      CompactList(cs, inArray, rest);
      if |cs| > 1 {
        FindSeparator(ch, ',', tail);
        FindPastList(ch, cs[1..], inArray, rest);
      }
      FindPastValue(ch, cs[0].value, after);
      if inArray {
        ElementText(cs[0]);
      } else {
        var val := RenderValue(cs[0].value, Compact, true) + after;
        var b := Mark(Body(cs[0].name, cs[0].nameEncoded), true);
        MemberText(cs[0], after);
        MarkedBodyClean(cs[0].name, cs[0].nameEncoded);
        FindString(ch, b, [':'] + val);
        FindSeparator(ch, ':', val);
      }
    }
  }

  /** The framer, which takes the escaped quotes of a body for quotes, is back in the quotation at its end and
      sees no bracket on the way. */
  predicate Quiet(body: string, outside: bool) {
    if body == [] then !outside
    else if body[0] == '\"' then Quiet(body[1..], !outside)
    else !(outside && Bracket(body[0])) && Quiet(body[1..], outside)
  }

  predicate QuietValue(v: Value)
    decreases v, 0
  {
    match v
    case Str(s, e) => Quiet(Body(s, e), false)
    case Array(cs) => AllQuiet(cs, true)
    case Object(cs) => AllQuiet(cs, false)
    case _ => true
  }

  predicate AllQuiet(cs: seq<Node>, inArray: bool)
    decreases cs, 0
  {
    cs == [] ||
    (&& (inArray || Quiet(Body(cs[0].name, cs[0].nameEncoded), false))
     && QuietValue(cs[0].value) && AllQuiet(cs[1..], inArray))
  }

  /** The brackets of a value. */
  function Shape(v: Value): string
    decreases v, 0
  {
    match v
    case Array(cs) => "[" + ShapeList(cs) + "]"
    case Object(cs) => "{" + ShapeList(cs) + "}"
    case _ => ""
  }

  function ShapeList(cs: seq<Node>): string
    decreases cs, 0
  {
    if cs == [] then "" else Shape(cs[0].value) + ShapeList(cs[1..])
  }

  /** What a piece of text adds to the skeleton, with an even number of quotes. */
  ghost predicate Shows(s: string, shape: string) {
    Quotes(s) % 2 == 0 && forall rest {:trigger Skeleton(s + rest)} :: Skeleton(s + rest) == shape + Skeleton(rest)
  }

  lemma ShowsBoth(s: string, t: string, a: string, b: string)
    requires Shows(s, a) && Shows(t, b)
    ensures Shows(s + t, a + b)
  {
    QuotesOfBoth(s, t);
    forall rest
      ensures Skeleton(s + t + rest) == a + b + Skeleton(rest)
    {
      Associative(s, t, rest);
      assert Skeleton(s + (t + rest)) == a + Skeleton(t + rest);
      assert Skeleton(t + rest) == b + Skeleton(rest);
      Associative(a, b, Skeleton(rest));
    }
  }

  lemma {:induction false} QuotesOfBoth(s: string, t: string)
    ensures Quotes(s + t) == Quotes(s) + Quotes(t)
  {
    if s == [] {
      assert s + t == t;
    } else {
      assert (s + t)[1..] == s[1..] + t;
      QuotesOfBoth(s[1..], t);
    }
  }

  lemma ShowsChar(c: char)
    requires c != '\"'
    ensures Shows([c], if Bracket(c) then [c] else "")
  {
    assert [c][1..] == "" && Quotes([c]) == 0;
    forall rest
      ensures Skeleton([c] + rest) == (if Bracket(c) then [c] else "") + Skeleton(rest)
    {
      assert ([c] + rest)[1..] == rest;
      assert "" + Skeleton(rest) == Skeleton(rest);
    }
  }

  lemma {:induction false} ShowsPlain(s: string)
    requires forall i | 0 <= i < |s| :: Plain(s[i]) || s[i] in {',', ':'}
    ensures Shows(s, "")
  {
    if s == [] {
      forall rest
        ensures Skeleton(s + rest) == "" + Skeleton(rest)
      {
        assert s + rest == rest;
      }
    } else {
      ShowsChar(s[0]);
      ShowsPlain(s[1..]);
      ShowsBoth([s[0]], s[1..], "", "");
      assert [s[0]] + s[1..] == s && "" + "" == "";
    }
  }

  lemma ShowsString(body: string)
    requires Quiet(body, false)
    ensures Shows(['\"'] + body + ['\"'], "")
  {
    QuietQuotes(body, false);
    QuotesOfBoth(['\"'] + body, ['\"']);
    QuotesOfBoth(['\"'], body);
    assert ['\"'][1..] == "" && Quotes(['\"']) == 1;
    forall rest
      ensures Skeleton(['\"'] + body + ['\"'] + rest) == "" + Skeleton(rest)
    {
      Regroup(['\"'], body, ['\"'], rest);
      var t := body + (['\"'] + rest);
      assert (['\"'] + t)[1..] == t;
      QuietSkeleton(body, false, rest);
      assert "" + Skeleton(rest) == Skeleton(rest);
    }
  }

  lemma {:induction false} QuietQuotes(body: string, outside: bool)
    requires Quiet(body, outside)
    ensures Quotes(body) % 2 == if outside then 1 else 0
  {
    if body != [] {
      QuietQuotes(body[1..], if body[0] == '\"' then !outside else outside);
    }
  }

  lemma {:induction false} QuietSkeleton(body: string, outside: bool, rest: string)
    requires Quiet(body, outside)
    ensures var s := body + (['\"'] + rest);
      (if outside then Skeleton(s) else SkeletonInQuote(s)) == Skeleton(rest)
    decreases |body|
  {
    var s := body + (['\"'] + rest);
    if body == [] {
      assert s[1..] == rest;
    } else {
      assert s[0] == body[0] && s[1..] == body[1..] + (['\"'] + rest);
      QuietSkeleton(body[1..], if body[0] == '\"' then !outside else outside, rest);
    }
  }

  /** A body without quotes is quiet. */
  lemma {:induction false} QuoteFreeIsQuiet(body: string)
    requires '\"' !in body
    ensures Quiet(body, false)
  {
    if body != [] {
      QuoteFreeIsQuiet(body[1..]);
    }
  }

  lemma BodyIsQuiet(s: string, encoded: bool, mark: bool)
    requires GoodText(s, encoded) && (mark || Quiet(Body(s, encoded), false))
    ensures Shows(['\"'] + Mark(Body(s, encoded), mark) + ['\"'], "")
  {
    if mark {
      MarkedBodyClean(s, encoded);
      QuoteFreeIsQuiet(Mark(Body(s, encoded), true));
    } else {
      MarkOff(Body(s, encoded));
    }
    ShowsString(Mark(Body(s, encoded), mark));
  }

  /** A printed value shows its own brackets, when its quotes are rewritten or its strings are quiet. */
  lemma {:induction false} ShowsValue(v: Value, mark: bool)
    requires PrintableValue(v) && (mark || QuietValue(v))
    ensures Shows(RenderValue(v, Compact, mark), Shape(v))
    decreases v, 0
  {
    match v
    case Null(t) => ShowsPlain(t);
    case Bool(b) => ShowsPlain(RenderValue(v, Compact, mark));
    case Number(t) =>
      NumeralChars(t);
      ShowsPlain(t);
    case Str(s, e) => BodyIsQuiet(s, e, mark);
    case Array(cs) => ShowsContainer('[', ']', cs, true, mark);
    case Object(cs) => ShowsContainer('{', '}', cs, false, mark);
  }

  lemma {:induction false} ShowsContainer(l: char, r: char, cs: seq<Node>, inArray: bool, mark: bool)
    requires Brackets(l, r) && AllPrintable(cs, inArray) && (mark || AllQuiet(cs, inArray))
    ensures Shows([l] + RenderChildren(cs, Compact, inArray, mark) + [r], [l] + ShapeList(cs) + [r])
    decreases cs, 1
  {
    var inner := RenderList(cs, Compact, inArray, mark);
    assert RenderChildren(cs, Compact, inArray, mark) == inner by {
      assert inner + "" == inner;
    }
    ShowsChar(l);
    ShowsChar(r);
    ShowsList(cs, inArray, mark);
    ShowsBoth([l], inner, [l], ShapeList(cs));
    ShowsBoth([l] + inner, [r], [l] + ShapeList(cs), [r]);
  }

  lemma {:induction false} ShowsList(cs: seq<Node>, inArray: bool, mark: bool)
    requires AllPrintable(cs, inArray) && (mark || AllQuiet(cs, inArray))
    ensures Shows(RenderList(cs, Compact, inArray, mark), ShapeList(cs))
    decreases cs, 0
  {
    if cs == [] {
      ShowsPlain("");
    } else {
      ShowsName(cs[0], inArray, mark);
      ShowsValue(cs[0].value, mark);
      var name, value := NameText(cs[0], Compact, inArray, mark), RenderValue(cs[0].value, Compact, mark);
      ShowsBoth(name, value, "", Shape(cs[0].value));
      assert "" + Shape(cs[0].value) == Shape(cs[0].value) && "" + (name + value) == name + value;
      ShowsRest(cs, inArray, mark);
      ShowsBoth(name + value, if |cs| > 1 then [','] + RenderList(cs[1..], Compact, inArray, mark) else "",
                Shape(cs[0].value), ShapeList(cs[1..]));
    }
  }

  lemma {:induction false} ShowsRest(cs: seq<Node>, inArray: bool, mark: bool)
    requires cs != [] && AllPrintable(cs, inArray) && (mark || AllQuiet(cs, inArray))
    ensures Shows(if |cs| > 1 then [','] + RenderList(cs[1..], Compact, inArray, mark) else "", ShapeList(cs[1..]))
    decreases cs[1..], 1
  {
    if |cs| > 1 {
      ShowsPlain([',']);
      ShowsList(cs[1..], inArray, mark);
      ShowsBoth([','], RenderList(cs[1..], Compact, inArray, mark), "", ShapeList(cs[1..]));
      assert "" + ShapeList(cs[1..]) == ShapeList(cs[1..]);
    } else {
      ShowsPlain("");
    }
  }

  lemma ShowsName(n: Node, inArray: bool, mark: bool)
    requires GoodText(n.name, n.nameEncoded) && (mark || inArray || Quiet(Body(n.name, n.nameEncoded), false))
    ensures Shows(NameText(n, Compact, inArray, mark), "")
  {
    if inArray {
      ShowsPlain("");
    } else {
      var quoted := ['\"'] + Mark(Body(n.name, n.nameEncoded), mark) + ['\"'];
      BodyIsQuiet(n.name, n.nameEncoded, mark);
      ShowsPlain(":");
      ShowsBoth(quoted, ":", "", "");
      assert quoted + ":" == NameText(n, Compact, inArray, mark) && "" + "" == "";
    }
  }

  predicate Document(v: Value) {
    PrintableValue(v) && Container(v)
  }

  lemma DocumentText(v: Value, mark: bool)
    requires Document(v)
    ensures Bracketed(RenderValue(v, Compact, mark)) && '\0' !in RenderValue(v, Compact, mark)
  {
    NoNul(v);
    UnmarkedHasNoNul(v);
  }

  /** The text with rewritten quotes is always framed. */
  lemma MarkedIsFramed(v: Value)
    requires Document(v)
    ensures Framed(RenderValue(v, Compact, true))
  {
    NoNul(v);
    var cs, inArray := if v.Array? then v.elements else v.members, v.Array?;
    var l, r := if inArray then '[' else '{', if inArray then ']' else '}';
    var inner := RenderList(cs, Compact, inArray, true);
    CompactChildren(cs, inArray);
    assert RenderValue(v, Compact, true) == [l] + inner + [r];
    FindPastList(r, cs, inArray, [r]);
    ListIsFramed(l, inner, r);
  }

  lemma ListIsFramed(l: char, inner: string, r: char)
    requires Opener(l) && r == Closer(l) && '\0' !in [l] + inner + [r]
    requires Find(r, inner + [r]) == Find(r, [r])
    ensures Framed([l] + inner + [r])
  {
    var s := inner + [r];
    Associative([l], inner, [r]);
    assert forall c | c in s :: c in [l] + inner + [r];
    StreamFindIsFind(r, s);
    FramedIsFind(l, s);
  }

  /** Escaped quotes in pairs with no bracket between them do not disturb the framer, at any depth. */
  lemma QuietIsFramed(v: Value)
    requires Document(v) && QuietValue(v)
    ensures Framed(RenderValue(v, Compact, false))
  {
    DocumentText(v, true);
    DocumentText(v, false);
    ShowsValue(v, true);
    ShowsValue(v, false);
    MarkedIsFramed(v);
    FramedIff(RenderValue(v, Compact, true));
    FramedIff(RenderValue(v, Compact, false));
    ShownSkeleton(RenderValue(v, Compact, true), Shape(v));
    ShownSkeleton(RenderValue(v, Compact, false), Shape(v));
    SameInside(RenderValue(v, Compact, true), RenderValue(v, Compact, false));
  }

  lemma SameInside(s: string, t: string)
    requires Bracketed(s) && Bracketed(t) && Quotes(s) % 2 == 0 == Quotes(t) % 2 && Skeleton(s) == Skeleton(t)
    ensures Skeleton(s[1..|s| - 1]) == Skeleton(t[1..|t| - 1])
  {
    SkeletonOfBracketed(s);
    SkeletonOfBracketed(t);
    assert Skeleton(s[1..]) == Skeleton(s)[1..] == Skeleton(t[1..]);
    var (u, w) := (Skeleton(s[1..]), Skeleton(t[1..]));
    assert Skeleton(s[1..|s| - 1]) == u[..|u| - 1] && Skeleton(t[1..|t| - 1]) == w[..|w| - 1];
  }

  lemma ShownSkeleton(s: string, shape: string)
    requires Shows(s, shape)
    ensures Skeleton(s) == shape
  {
    assert Skeleton(s + "") == shape + Skeleton("");
    assert s + "" == s && shape + "" == shape;
  }

  // ------------------------------------------------------------ texts one after the other

  lemma OpenerAfter(c: char, s: string)
    requires !Opener(c)
    ensures FindOpener([c] + s) == if FindOpener(s).None? then None else Some(FindOpener(s).value + 1)
  {
    assert ([c] + s)[1..] == s;
  }

  lemma FrameAfter(c: char, s: string)
    requires !Opener(c)
    ensures match FirstFrame(s)
      case None => FirstFrame([c] + s) == None
      case Some(f) => FirstFrame([c] + s) == Some((f.0 + 1, f.1 + 1))
  {
    OpenerAfter(c, s);
    if FindOpener(s).Some? {
      var pos := FindOpener(s).value;
      assert ([c] + s)[pos + 2..] == s[pos + 1..];
      assert ([c] + s)[pos + 1] == s[pos];
    }
  }

  /** Two texts whose first objects and what follows them are the same. */
  lemma SameFrames(s: string, t: string)
    requires FirstFrame(s).Some? && FirstFrame(t).Some?
    requires var ((p, e), (p', e')) := (FirstFrame(s).value, FirstFrame(t).value);
             s[p..e + 1] == t[p'..e' + 1] && s[e..] == t[e'..]
    ensures Frames(s) == Frames(t)
  {
    FramesStep(s);
    FramesStep(t);
  }

  lemma FirstOfFrames(s: string, end: nat, rest: seq<string>)
    requires FirstFrame(s) == Some((0, end)) && Frames(s[end..]) == rest
    ensures Frames(s) == [s[..end + 1]] + rest
  {
    FramesStep(s);
    assert s[0..end + 1] == s[..end + 1];
  }

  lemma SliceBehind(c: char, s: string, i: nat, j: nat)
    requires i <= j <= |s|
    ensures ([c] + s)[i + 1..j + 1] == s[i..j]
  {
    forall k | 0 <= k < j - i
      ensures ([c] + s)[i + 1..j + 1][k] == s[i..j][k]
    {
      assert ([c] + s)[i + 1 + k] == s[i + k];
    }
  }

  lemma RestBehind(c: char, s: string, i: nat)
    requires i <= |s|
    ensures ([c] + s)[i + 1..] == s[i..]
  {
    SliceBehind(c, s, i, |s|);
    assert ([c] + s)[i + 1..] == ([c] + s)[i + 1..|s| + 1] && s[i..] == s[i..|s|];
  }

  lemma FramesAfterCloser(c: char, s: string)
    requires !Opener(c)
    ensures Frames([c] + s) == Frames(s)
  {
    FrameAfter(c, s);
    var f := FirstFrame(s);
    if f.Some? {
      var (pos, end) := f.value;
      SliceBehind(c, s, pos, end + 1);
      RestBehind(c, s, end);
      SameFrames([c] + s, s);
    }
  }

  // What is found in front of more text is found without it.

  lemma {:induction false} SkipQuotePrefix(s: string, more: string)
    requires SkipQuote(s + more).Some? && |SkipQuote(s + more).value| >= |more|
    ensures SkipQuote(s).Some? && SkipQuote(s + more).value == SkipQuote(s).value + more
    decreases |s|
  {
    if s != [] {
      assert (s + more)[1..] == s[1..] + more;
      if s[0] != '\"' {
        SkipQuotePrefix(s[1..], more);
      }
    }
  }

  lemma {:induction false} SkipBracketPrefix(l: char, r: char, s: string, depth: nat, more: string)
    requires SkipBracket(l, r, s + more, depth).Some? && |SkipBracket(l, r, s + more, depth).value| >= |more|
    ensures SkipBracket(l, r, s, depth).Some?
    ensures SkipBracket(l, r, s + more, depth).value == SkipBracket(l, r, s, depth).value + more
    decreases |s|
  {
    if depth > 0 {
      if s != [] {
        assert (s + more)[1..] == s[1..] + more;
        if s[0] == r {
          SkipBracketPrefix(l, r, s[1..], depth - 1, more);
        } else if s[0] == l {
          SkipBracketPrefix(l, r, s[1..], depth + 1, more);
        } else if s[0] == '\"' {
          SkipQuotePrefix(s[1..], more);
          SkipBracketPrefix(l, r, SkipQuote(s[1..]).value, depth, more);
        } else {
          SkipBracketPrefix(l, r, s[1..], depth, more);
        }
      }
    }
  }

  lemma {:induction false} StreamFindPrefix(ch: char, s: string, more: string)
    requires StreamFind(ch, s + more).Some? && |StreamFind(ch, s + more).value| > |more|
    ensures StreamFind(ch, s).Some? && StreamFind(ch, s + more).value == StreamFind(ch, s).value + more
    decreases |s|
  {
    if s != [] && s[0] != ch {
      assert (s + more)[1..] == s[1..] + more;
      if s[0] == '[' || s[0] == '{' {
        var r := if s[0] == '[' then ']' else '}';
        SkipBracketPrefix(s[0], r, s[1..], 1, more);
        StreamFindPrefix(ch, SkipBracket(s[0], r, s[1..], 1).value, more);
      } else if s[0] == '\"' {
        SkipQuotePrefix(s[1..], more);
        StreamFindPrefix(ch, SkipQuote(s[1..]).value, more);
      } else {
        StreamFindPrefix(ch, s[1..], more);
      }
    }
  }

  lemma FramedInFrontIff(t: string, more: string)
    requires Bracketed(t)
    ensures FirstFrame(t + more) == Some((0, |t| - 1)) <==> Framed(t)
  {
    var s := t[1..];
    assert (t + more)[1..] == s + more;
    if Framed(t) {
      FirstFrameExtends(t, more);
    } else if FirstFrame(t + more) == Some((0, |t| - 1)) {
      StreamFindPrefix(Closer(t[0]), s, more);
    }
  }

  function Join(texts: seq<string>): string {
    if texts == [] then "" else texts[0] + Join(texts[1..])
  }

  /** Texts in brackets that are sent one after the other come out one by one if and only if each of them is
      framed. */
  lemma {:induction false} OneByOneIff(texts: seq<string>)
    requires forall i | 0 <= i < |texts| :: Bracketed(texts[i])
    ensures Frames(Join(texts)) == texts <==> forall i | 0 <= i < |texts| :: Framed(texts[i])
  {
    if texts != [] {
      var t, others := texts[0], texts[1..];
      OneByOneIff(others);
      FirstTextIff(t, Join(others), others);
      assert texts == [t] + others;
      AllFramedIff(t, others);
    }
  }

  lemma AllFramedIff(t: string, others: seq<string>)
    ensures var texts := [t] + others;
      (forall i | 0 <= i < |texts| :: Framed(texts[i])) <==>
      Framed(t) && forall i | 0 <= i < |others| :: Framed(others[i])
  {
    var texts := [t] + others;
    if forall i | 0 <= i < |texts| :: Framed(texts[i]) {
      assert Framed(texts[0]);
      forall i | 0 <= i < |others|
        ensures Framed(others[i])
      {
        assert Framed(texts[i + 1]);
      }
    }
  }

  lemma FirstTextIff(t: string, rest: string, texts: seq<string>)
    requires Bracketed(t)
    ensures Frames(t + rest) == [t] + texts <==> Framed(t) && Frames(rest) == texts
  {
    var s := t + rest;
    FramedInFrontIff(t, rest);
    if Framed(t) {
      FramedInFront(t, rest);
      ConsIff(t, Frames(rest), t, texts);
    } else {
      if s[0] == t[0] && Frames(s) != [] {
        FirstLength(s);
      }
      assert ([t] + texts)[0] == t;
    }
  }

  lemma FramedInFront(t: string, rest: string)
    requires Bracketed(t) && FirstFrame(t + rest) == Some((0, |t| - 1))
    ensures Frames(t + rest) == [t] + Frames(rest)
  {
    var end := |t| - 1;
    LastAndRest(t, rest);
    FramesAfterCloser(t[end], rest);
    FirstOfFrames(t + rest, end, Frames(rest));
  }

  lemma LastAndRest(t: string, rest: string)
    requires t != []
    ensures (t + rest)[..|t|] == t && (t + rest)[|t| - 1..] == [t[|t| - 1]] + rest
  {
    var s, u := (t + rest)[|t| - 1..], [t[|t| - 1]] + rest;
    assert |s| == |u|;
    forall i | 0 <= i < |s|
      ensures s[i] == u[i]
    {
      assert s[i] == (t + rest)[|t| - 1 + i];
    }
  }

  lemma FirstLength(s: string)
    requires s != [] && Opener(s[0]) && Frames(s) != []
    ensures FirstFrame(s) == Some((0, |Frames(s)[0]| - 1))
  {
  }

  lemma ConsIff<T>(x: T, a: seq<T>, y: T, b: seq<T>)
    ensures [x] + a == [y] + b <==> x == y && a == b
  {
    assert ([x] + a)[0] == x && ([y] + b)[0] == y;
    assert ([x] + a)[1..] == a && ([y] + b)[1..] == b;
  }

  function Texts(docs: seq<Value>): (texts: seq<string>)
    ensures |texts| == |docs| && forall i | 0 <= i < |docs| :: texts[i] == RenderValue(docs[i], Compact, false)
  {
    if docs == [] then [] else [RenderValue(docs[0], Compact, false)] + Texts(docs[1..])
  }

  /** The printed document has an even number of quotes, escaped ones included, and the brackets between its outer
      ones that stand outside quotations, when the escaped quotes count as quotes, are groups. */
  ghost predicate Undisturbed(v: Value) {
    var t := RenderValue(v, Compact, false);
    |t| >= 2 && Quotes(t) % 2 == 0 && Groups(Skeleton(t[1..|t| - 1]))
  }

  /** Printed documents sent one after the other come out of the stream one by one if and only if the escaped quotes
      of none of them disturb the framer. */
  lemma PrintedDocumentsAreFramed(docs: seq<Value>)
    requires forall i | 0 <= i < |docs| :: Document(docs[i])
    ensures Frames(Join(Texts(docs))) == Texts(docs) <==>
            forall i | 0 <= i < |docs| :: Undisturbed(docs[i])
  {
    forall i | 0 <= i < |docs|
      ensures Bracketed(Texts(docs)[i]) && (Framed(Texts(docs)[i]) <==> Undisturbed(docs[i]))
    {
      DocumentText(docs[i], false);
      FramedIff(Texts(docs)[i]);
    }
    OneByOneIff(Texts(docs));
  }

  /** A quote in a string misleads the framer, which does not follow escapes: of this document it hands out
      a part that is not the document. */
  lemma EscapedQuoteMisleadsFraming()
    ensures var v := Array([Node("", false, Str("\"]", true))]);
      && PrintableValue(v)
      && RenderValue(v, Compact, false) == "[\"\\\"]\"]"
      && Frames(RenderValue(v, Compact, false)) == ["[\"\\\"]"]
  {
    MisledText();
    MisledFrames();
  }

  lemma MisledFrames()
    ensures Frames("[\"\\\"]\"]") == ["[\"\\\"]"]
  {
    var t := "[\"\\\"]\"]";
    FrameOfMisled();
    FramesAfterCloser(']', "\"]");
    FramesAfterCloser('\"', "]");
    FramesAfterCloser(']', "");
    assert [']'] + "" == "]" && ['\"'] + "]" == "\"]" && [']'] + "\"]" == "]\"]";
    assert Frames("") == [];
    assert t[4..] == "]\"]" && t[0..5] == "[\"\\\"]";
  }

  lemma MisledBody()
    ensures Mark(Body("\"]", true), false) == "\\\"]"
  {
    var s := "\"]";
    assert s[1..] == "]" && "]"[1..] == "";
    assert Escape("]") == "]" + Escape("") && Escape(s) == "\\\"" + Escape("]");
    MarkOff(Escape(s));
  }

  lemma MisledText()
    ensures var v := Array([Node("", false, Str("\"]", true))]);
      PrintableValue(v) && RenderValue(v, Compact, false) == "[\"\\\"]\"]"
  {
    var v := Str("\"]", true);
    MisledBody();
    assert RenderValue(v, Compact, false) == "\"\\\"]\"";
    OneElement(v);
  }

  lemma OneElement(v: Value)
    requires PrintableValue(v)
    ensures var n := Node("", false, v);
      && PrintableValue(Array([n]))
      && RenderValue(Array([n]), Compact, false) == "[" + RenderValue(v, Compact, false) + "]"
  {
    var n := Node("", false, v);
    assert Printable(n, true) && AllPrintable([n], true);
    assert Render(n, Compact, true, false) == RenderValue(v, Compact, false);
    assert RenderList([n], Compact, true, false) == "" + Render(n, Compact, true, false) + "";
    assert RenderChildren([n], Compact, true, false) == RenderList([n], Compact, true, false) + "";
  }

  lemma FrameOfMisled()
    ensures FirstFrame("[\"\\\"]\"]") == Some((0, 4))
  {
    var t := "[\"\\\"]\"]";
    var u, w, x := "\"\\\"]\"]", "\\\"]\"]", "\"]\"]";
    assert t[1..] == u && u[1..] == w && w[1..] == x && x[1..] == "]\"]";
    assert SkipQuote(x) == Some("]\"]");
    assert SkipQuote(w) == SkipQuote(x);
    assert StreamFind(']', u) == StreamFind(']', "]\"]");
  }
}
