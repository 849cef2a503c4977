/**
 private_RemoveWhiteSpace (JSONWorker.cpp), up to the start of a comment outside the strings.
 */
module JsonStripper {
  import opened Wrappers
  import opened JsonText
  import opened JsonNode
  import opened JsonWriter

  predicate WhiteSpace(c: char) {
    c in {' ', '\t', '\n', '\r'}
  }

  /** What the stripper makes of s when it stands outside a quotation. A character that is not printable
      ends the output early. */
  function Outside(s: string, mark: bool): Scan
    decreases |s|
  {
    if s == [] then Text("")
    else if WhiteSpace(s[0]) then Outside(s[1..], mark)
    else if s[0] == '/' || s[0] == '#' then Comment
    else if s[0] == '\"' then Prepend('\"', InQuote(s[1..], mark))
    else if Code(s[0]) < 32 || Code(s[0]) > 126 then Text("")
    else Prepend(s[0], Outside(s[1..], mark))
  }

  /** The same inside a quotation. */
  function InQuote(s: string, mark: bool): Scan
    decreases |s|
  {
    if s == [] then Text("")
    else if s[0] == '\"' then Prepend('\"', Outside(s[1..], mark))
    else if s[0] != '\\' then Prepend(s[0], InQuote(s[1..], mark))
    else if |s| == 1 then Overrun
    else Prepend('\\', Prepend(Marked(s[1], mark), InQuote(s[2..], mark)))
  }

  /** The stripper meets an escaped quote and, when asked to, rewrites it: then the global used_ascii_one is set. */
  predicate Rewrites(s: string)
    decreases |s|
  {
    if s == [] || s[0] == '/' || s[0] == '#' then false
    else if WhiteSpace(s[0]) then Rewrites(s[1..])
    else if s[0] == '\"' then RewritesInQuote(s[1..])
    else 32 <= Code(s[0]) <= 126 && Rewrites(s[1..])
  }

  predicate RewritesInQuote(s: string)
    decreases |s|
  {
    if s == [] then false
    else if s[0] == '\"' then Rewrites(s[1..])
    else if s[0] != '\\' then RewritesInQuote(s[1..])
    else |s| > 1 && (s[1] == '\"' || RewritesInQuote(s[2..]))
  }

  /** private_RemoveWhiteSpace; used is the global before and after it. */
  method RemoveWhiteSpace(value: string, escapeQuotes: bool, used: bool) returns (result: Scan, used': bool)
    ensures result == Outside(value, escapeQuotes)
    ensures used' == (used || (escapeQuotes && Rewrites(value)))
  {
    var runner := "";
    var p := 0;
    used' := used;
    assert value[0..] == value;
    while p < |value|
      invariant p <= |value|
      invariant Outside(value, escapeQuotes) == PrependAll(runner, Outside(value[p..], escapeQuotes))
      invariant used' || (escapeQuotes && Rewrites(value[p..])) <==> used || (escapeQuotes && Rewrites(value))
    {
      assert value[p..][0] == value[p] && value[p..][1..] == value[p + 1..];
      if WhiteSpace(value[p]) {
        p := p + 1;
      } else if value[p] == '/' || value[p] == '#' {
        return Comment, used';
      } else if value[p] == '\"' {
        PrependAllSnoc(runner, '\"', InQuote(value[p + 1..], escapeQuotes));
        var copied;
        p, copied, used' := CopyQuotation(value, p + 1, escapeQuotes, runner + ['\"'], used');
        if copied.None? {
          return Overrun, used';
        }
        runner := copied.value;
        if p == |value| {
          return Text(runner), used';
        }
        assert value[p..][0] == value[p] && value[p..][1..] == value[p + 1..];
        PrependAllSnoc(runner, '\"', Outside(value[p + 1..], escapeQuotes));
        runner := runner + ['\"'];
        p := p + 1;
      } else if Code(value[p]) < 32 || Code(value[p]) > 126 {
        assert runner + "" == runner;
        return Text(runner), used';
      } else {
        PrependAllSnoc(runner, value[p], Outside(value[p + 1..], escapeQuotes));
        runner := runner + [value[p]];
        p := p + 1;
      }
    }
    assert runner + "" == runner;
    return Text(runner), used';
  }

  /** The loop inside a quotation: it stops at the closing quote or at the end. None stands for stepping past the
      end. */
  method CopyQuotation(value: string, start: nat, escapeQuotes: bool, before: string, used: bool)
    returns (p: nat, runner: Option<string>, used': bool)
    requires start <= |value|
    ensures start <= p <= |value| && (runner.Some? && p < |value| ==> value[p] == '\"')
    ensures PrependAll(before, InQuote(value[start..], escapeQuotes)) ==
            if runner.None? then Overrun
            else if p == |value| then Text(runner.value)
            else PrependAll(runner.value, InQuote(value[p..], escapeQuotes))
    ensures used || (escapeQuotes && RewritesInQuote(value[start..])) <==>
            used' || (runner.Some? && escapeQuotes && RewritesInQuote(value[p..]))
  {
    var text := before;
    p, used' := start, used;
    while p < |value| && value[p] != '\"'
      invariant start <= p <= |value|
      invariant PrependAll(before, InQuote(value[start..], escapeQuotes)) ==
                PrependAll(text, InQuote(value[p..], escapeQuotes))
      invariant used || (escapeQuotes && RewritesInQuote(value[start..])) <==>
                used' || (escapeQuotes && RewritesInQuote(value[p..]))
    {
      ghost var rest := value[p..];
      assert rest[0] == value[p] && rest[1..] == value[p + 1..];
      if value[p] == '\\' {
        if p + 1 == |value| {
          return p, None, used';
        }
        assert rest[1] == value[p + 1] && rest[2..] == value[p + 2..];
        var c := Marked(value[p + 1], escapeQuotes);
        PrependAllSnoc(text, '\\', Prepend(c, InQuote(value[p + 2..], escapeQuotes)));
        PrependAllSnoc(text + ['\\'], c, InQuote(value[p + 2..], escapeQuotes));
        text := text + ['\\'] + [c];
        used' := used' || (escapeQuotes && value[p + 1] == '\"');
        p := p + 2;
      } else {
        PrependAllSnoc(text, value[p], InQuote(value[p + 1..], escapeQuotes));
        text := text + [value[p]];
        p := p + 1;
      }
    }
    assert text + "" == text;
    return p, Some(text), used';
  }

  /** The global is set exactly when rewriting makes a difference to the stripped text. */
  lemma {:induction false} RewritesIff(s: string)
    ensures Outside(s, true).Text? <==> Outside(s, false).Text?
    ensures Outside(s, true).Text? ==> (Rewrites(s) <==> Outside(s, true) != Outside(s, false))
    decreases |s|
  {
    if s != [] && s[0] != '/' && s[0] != '#' {
      if s[0] == '\"' {
        RewritesInQuoteIff(s[1..]);
        PrependDiffers('\"', InQuote(s[1..], true), InQuote(s[1..], false));
      } else {
        RewritesIff(s[1..]);
        PrependDiffers(s[0], Outside(s[1..], true), Outside(s[1..], false));
      }
    }
  }

  lemma {:induction false} RewritesInQuoteIff(s: string)
    ensures InQuote(s, true).Text? <==> InQuote(s, false).Text?
    ensures InQuote(s, true).Text? ==> (RewritesInQuote(s) <==> InQuote(s, true) != InQuote(s, false))
    decreases |s|
  {
    if s != [] {
      if s[0] == '\"' {
        RewritesIff(s[1..]);
        PrependDiffers('\"', Outside(s[1..], true), Outside(s[1..], false));
      } else if s[0] != '\\' {
        RewritesInQuoteIff(s[1..]);
        PrependDiffers(s[0], InQuote(s[1..], true), InQuote(s[1..], false));
      } else if |s| > 1 {
        RewritesInQuoteIff(s[2..]);
        var a, b := InQuote(s[2..], true), InQuote(s[2..], false);
        var c, d := Prepend(Marked(s[1], true), a), Prepend(s[1], b);
        if s[1] == '\"' {
          PrependOther('\U{1}', '\"', a, b);
        } else {
          PrependDiffers(s[1], a, b);
        }
        PrependDiffers('\\', c, d);
      }
    }
  }

  lemma PrependDiffers(c: char, a: Scan, b: Scan)
    ensures Prepend(c, a).Text? <==> a.Text?
    ensures a.Text? && b.Text? ==> (Prepend(c, a) == Prepend(c, b) <==> a == b)
  {
    if a.Text? && b.Text? {
      assert Prepend(c, a).text[1..] == a.text && Prepend(c, b).text[1..] == b.text;
    }
  }

  lemma PrependOther(c: char, d: char, a: Scan, b: Scan)
    requires c != d
    ensures a.Text? && b.Text? ==> Prepend(c, a) != Prepend(d, b)
  {
    if a.Text? && b.Text? {
      assert Prepend(c, a).text[0] == c && Prepend(d, b).text[0] == d;
    }
  }

  // ------------------------------------------------ white space

  /** The text ends outside quotations; a backslash in a quotation hides the character behind it. */
  predicate EndsOutside(s: string)
    decreases |s|
  {
    s == "" || if s[0] == '\"' then EndsInside(s[1..]) else EndsOutside(s[1..])
  }

  predicate EndsInside(s: string)
    decreases |s|
  {
    s != "" && if s[0] == '\"' then EndsOutside(s[1..])
               else if s[0] == '\\' then |s| > 1 && EndsInside(s[2..])
               else EndsInside(s[1..])
  }

  /** Blanks, tabs, line feeds and carriage returns may stand anywhere outside quotations. */
  lemma {:induction false} WhiteSpaceIsFree(a: string, c: char, b: string, mark: bool)
    requires EndsOutside(a) && (c == ' ' || c == '\t' || c == '\n' || c == '\r')
    ensures Outside(a + [c] + b, mark) == Outside(a + b, mark)
    decreases |a|
  {
    if a == "" {
      assert a + [c] + b == [c] + b && ([c] + b)[1..] == b && a + b == b;
    } else {
      assert (a + [c] + b)[1..] == a[1..] + [c] + b && (a + b)[1..] == a[1..] + b;
      if a[0] == '\"' {
        WhiteSpaceBehindQuote(a[1..], c, b, mark);
      } else {
        WhiteSpaceIsFree(a[1..], c, b, mark);
      }
    }
  }

  lemma {:induction false} WhiteSpaceBehindQuote(a: string, c: char, b: string, mark: bool)
    requires EndsInside(a) && (c == ' ' || c == '\t' || c == '\n' || c == '\r')
    ensures InQuote(a + [c] + b, mark) == InQuote(a + b, mark)
    decreases |a|
  {
    assert (a + [c] + b)[1..] == a[1..] + [c] + b && (a + b)[1..] == a[1..] + b;
    if a[0] == '\"' {
      WhiteSpaceIsFree(a[1..], c, b, mark);
    } else if a[0] == '\\' {
      assert (a + [c] + b)[2..] == a[2..] + [c] + b && (a + b)[2..] == a[2..] + b;
      WhiteSpaceBehindQuote(a[2..], c, b, mark);
    } else {
      WhiteSpaceBehindQuote(a[1..], c, b, mark);
    }
  }

  /** Printable characters and white space only. */
  predicate Shown(s: string) {
    forall i | 0 <= i < |s| :: ' ' <= s[i] <= '~' || WhiteSpace(s[i])
  }

  /** The stripper goes through a text without looking ahead. */
  lemma {:induction false} OutsideBoth(a: string, b: string, mark: bool)
    requires EndsOutside(a) && Shown(a)
    ensures Outside(a + b, mark) ==
            match Outside(a, mark) case Text(t) => PrependAll(t, Outside(b, mark)) case other => other
    decreases |a|
  {
    if a == "" {
      assert a + b == b;
      PrependNothing(Outside(b, mark));
    } else {
      assert (a + b)[1..] == a[1..] + b;
      if a[0] == '\"' {
        QuoteBoth(a[1..], b, mark);
        PrependBoth('\"', InQuote(a[1..], mark), Outside(b, mark));
      } else {
        OutsideBoth(a[1..], b, mark);
        PrependBoth(a[0], Outside(a[1..], mark), Outside(b, mark));
      }
    }
  }

  lemma {:induction false} QuoteBoth(a: string, b: string, mark: bool)
    requires EndsInside(a) && Shown(a)
    ensures InQuote(a + b, mark) ==
            match InQuote(a, mark) case Text(t) => PrependAll(t, Outside(b, mark)) case other => other
    decreases |a|
  {
    assert (a + b)[1..] == a[1..] + b;
    if a[0] == '\"' {
      OutsideBoth(a[1..], b, mark);
      PrependBoth('\"', Outside(a[1..], mark), Outside(b, mark));
    } else if a[0] == '\\' {
      assert (a + b)[2..] == a[2..] + b;
      QuoteBoth(a[2..], b, mark);
      PrependBoth(Marked(a[1], mark), InQuote(a[2..], mark), Outside(b, mark));
      PrependBoth('\\', Prepend(Marked(a[1], mark), InQuote(a[2..], mark)), Outside(b, mark));
    } else {
      QuoteBoth(a[1..], b, mark);
      PrependBoth(a[0], InQuote(a[1..], mark), Outside(b, mark));
    }
  }

  lemma PrependBoth(c: char, first: Scan, rest: Scan)
    ensures Prepend(c, match first case Text(t) => PrependAll(t, rest) case other => other) ==
            match Prepend(c, first) case Text(t) => PrependAll(t, rest) case other => other
  {
    if first.Text? {
      PrependCons(c, first.text, rest);
    }
  }

  /** What ends the stripping outside quotations: a comment, which starts with a slash or a number sign, or any
      other character that is neither printable nor white space. */
  lemma StripperEnds(a: string, c: char, b: string, mark: bool)
    requires EndsOutside(a) && Shown(a) && Outside(a, mark).Text?
    ensures c == '/' || c == '#' ==> Outside(a + [c] + b, mark) == Comment
    ensures c < ' ' && c !in {'\t', '\n', '\r'} ==> Outside(a + [c] + b, mark) == Outside(a, mark)
    ensures '~' < c <= '\U{FF}' ==> Outside(a + [c] + b, mark) == Outside(a, mark)
  {
    assert a + [c] + b == a + ([c] + b);
    OutsideBoth(a, [c] + b, mark);
    assert Outside(a, mark).text + "" == Outside(a, mark).text;
  }

  // ------------------------------------------------ stripping what the writer prints

  /** Characters the stripper copies outside quotations. */
  predicate Kept(c: char) {
    ' ' < c <= '~' && c != '/' && c != '#' && c != '\"'
  }

  lemma {:induction false} StripKept(s: string, rest: string, mark: bool)
    requires forall i | 0 <= i < |s| :: Kept(s[i])
    ensures Outside(s + rest, mark) == PrependAll(s, Outside(rest, mark))
  {
    if s == [] {
      assert s + rest == rest;
      PrependNothing(Outside(rest, mark));
    } else {
      var t := s[1..] + rest;
      assert (s + rest)[0] == s[0] && (s + rest)[1..] == t;
      StripKept(s[1..], rest, mark);
      PrependCons(s[0], s[1..], Outside(rest, mark));
      assert [s[0]] + s[1..] == s;
    }
  }

  lemma PrependNothing(t: Scan)
    ensures PrependAll("", t) == t
  {
  }

  lemma PrependCons(c: char, s: string, t: Scan)
    ensures Prepend(c, PrependAll(s, t)) == PrependAll([c] + s, t)
  {
    PrependAllTwice([c], s, t);
  }

  lemma {:induction false} StripWhite(s: string, rest: string, mark: bool)
    requires forall i | 0 <= i < |s| :: WhiteSpace(s[i])
    ensures Outside(s + rest, mark) == Outside(rest, mark)
  {
    if s == [] {
      assert s + rest == rest;
    } else {
      assert (s + rest)[0] == s[0] && (s + rest)[1..] == s[1..] + rest;
      StripWhite(s[1..], rest, mark);
    }
  }

  lemma {:induction false} StripBody(body: string, rest: string, mark: bool)
    requires QuotesEscaped(body)
    ensures InQuote(body + ['\"'] + rest, mark)
         == PrependAll(Mark(body, mark) + ['\"'], Outside(rest, mark))
    decreases |body|
  {
    var s := body + ['\"'] + rest;
    if body == [] {
      assert s[0] == '\"' && s[1..] == rest;
      assert [] + ['\"'] == ['\"'];
    } else if body[0] == '\\' {
      var tail := Mark(body[2..], mark) + ['\"'];
      assert s[0] == '\\' && s[1] == body[1] && s[2..] == body[2..] + ['\"'] + rest;
      StripBody(body[2..], rest, mark);
      PrependCons(Marked(body[1], mark), tail, Outside(rest, mark));
      PrependCons('\\', [Marked(body[1], mark)] + tail, Outside(rest, mark));
      assert ['\\'] + ([Marked(body[1], mark)] + tail) == Mark(body, mark) + ['\"'];
    } else {
      var tail := Mark(body[1..], mark) + ['\"'];
      assert s[0] == body[0] && s[1..] == body[1..] + ['\"'] + rest;
      StripBody(body[1..], rest, mark);
      PrependCons(body[0], tail, Outside(rest, mark));
      assert [body[0]] + tail == Mark(body, mark) + ['\"'];
    }
  }

  lemma GoodBody(s: string, encoded: bool)
    requires GoodText(s, encoded)
    ensures QuotesEscaped(Body(s, encoded))
  {
    if encoded {
      EscapeIsClean(s);
    } else {
      PlainQuotesEscaped(s, "");
      assert s + "" == s;
    }
  }

  /** A printed string, quotes included. */
  lemma StripString(s: string, encoded: bool, rest: string, mark: bool)
    requires GoodText(s, encoded)
    ensures Outside(['\"'] + Mark(Body(s, encoded), false) + ['\"'] + rest, mark)
         == PrependAll(['\"'] + Mark(Body(s, encoded), mark) + ['\"'], Outside(rest, mark))
  {
    var b := Body(s, encoded);
    GoodBody(s, encoded);
    MarkOff(b);
    StripBody(b, rest, mark);
    Regroup(['\"'], b, ['\"'], rest);
    Associative(b, ['\"'], rest);
    var t := b + ['\"'] + rest;
    assert (['\"'] + t)[1..] == t;
    PrependCons('\"', Mark(b, mark) + ['\"'], Outside(rest, mark));
    Associative(['\"'], Mark(b, mark), ['\"']);
  }

  lemma StripSeparator(lay: Layout, rest: string, mark: bool)
    ensures Outside((if lay.Pretty? then " : " else ":") + rest, mark) == PrependAll(":", Outside(rest, mark))
  {
    if lay.Pretty? {
      assert " : " + rest == " " + (":" + (" " + rest));
      StripWhite(" ", ":" + (" " + rest), mark);
      StripKept(":", " " + rest, mark);
      StripWhite(" ", rest, mark);
    } else {
      StripKept(":", rest, mark);
    }
  }

  lemma StripName(n: Node, lay: Layout, arrayChild: bool, rest: string, mark: bool)
    requires GoodText(n.name, n.nameEncoded)
    ensures Outside(NameText(n, lay, arrayChild, false) + rest, mark)
         == PrependAll(NameText(n, Compact, arrayChild, mark), Outside(rest, mark))
  {
    if arrayChild {
      assert "" + rest == rest;
      PrependNothing(Outside(rest, mark));
    } else {
      var sep := if lay.Pretty? then " : " else ":";
      var quoted := ['\"'] + Mark(Body(n.name, n.nameEncoded), false) + ['\"'];
      var marked := ['\"'] + Mark(Body(n.name, n.nameEncoded), mark) + ['\"'];
      assert NameText(n, lay, arrayChild, false) + rest == quoted + (sep + rest);
      StripString(n.name, n.nameEncoded, sep + rest, mark);
      StripSeparator(lay, rest, mark);
      PrependAllTwice(marked, ":", Outside(rest, mark));
      assert marked + ":" == NameText(n, Compact, arrayChild, mark);
    }
  }

  /** Stripping a printed node, in any layout, gives its compact text, with its escaped quotes
      rewritten if the stripper was asked to; nothing that follows is disturbed. */
  lemma {:induction false} StripNode(n: Node, lay: Layout, arrayChild: bool, rest: string, mark: bool)
    requires Printable(n, arrayChild)
    ensures Outside(Render(n, lay, arrayChild, false) + rest, mark)
         == PrependAll(Render(n, Compact, arrayChild, mark), Outside(rest, mark))
    decreases n, 1
  {
    var name, val := NameText(n, lay, arrayChild, false), RenderValue(n.value, lay, false);
    assert (name + val) + rest == name + (val + rest);
    StripName(n, lay, arrayChild, val + rest, mark);
    StripValue(n.value, lay, rest, mark);
    PrependAllTwice(NameText(n, Compact, arrayChild, mark), RenderValue(n.value, Compact, mark), Outside(rest, mark));
  }

  lemma {:induction false} StripValue(v: Value, lay: Layout, rest: string, mark: bool)
    requires PrintableValue(v)
    ensures Outside(RenderValue(v, lay, false) + rest, mark)
         == PrependAll(RenderValue(v, Compact, mark), Outside(rest, mark))
    decreases v, 0
  {
    match v
    case Null(t) => StripKept(t, rest, mark);
    case Bool(b) => StripKept(RenderValue(v, lay, false), rest, mark);
    case Number(t) =>
      NumeralChars(t);
      StripKept(t, rest, mark);
    case Str(s, e) => StripString(s, e, rest, mark);
    case Array(cs) => StripContainer('[', ']', cs, lay, true, rest, mark);
    case Object(cs) => StripContainer('{', '}', cs, lay, false, rest, mark);
  }

  lemma {:induction false} StripContainer(l: char, r: char, cs: seq<Node>, lay: Layout, inArray: bool,
                                          rest: string, mark: bool)
    requires AllPrintable(cs, inArray) && Kept(l) && Kept(r)
    ensures Outside([l] + RenderChildren(cs, lay, inArray, false) + [r] + rest, mark)
         == PrependAll([l] + RenderChildren(cs, Compact, inArray, mark) + [r], Outside(rest, mark))
    decreases cs, 3
  {
    var inner := RenderChildren(cs, lay, inArray, false);
    var plain := RenderChildren(cs, Compact, inArray, mark);
    Regroup([l], inner, [r], rest);
    StripKept([l], inner + ([r] + rest), mark);
    StripChildren(cs, lay, inArray, [r] + rest, mark);
    StripKept([r], rest, mark);
    PrependAllTwice(plain, [r], Outside(rest, mark));
    PrependAllTwice([l], plain + [r], Outside(rest, mark));
    Associative([l], plain, [r]);
  }

  lemma {:induction false} StripChildren(cs: seq<Node>, lay: Layout, inArray: bool, rest: string, mark: bool)
    requires AllPrintable(cs, inArray)
    ensures Outside(RenderChildren(cs, lay, inArray, false) + rest, mark)
         == PrependAll(RenderChildren(cs, Compact, inArray, mark), Outside(rest, mark))
    decreases cs, 2
  {
    if cs == [] {
      assert "" + rest == rest;
      PrependNothing(Outside(rest, mark));
    } else {
      Associative(RenderList(cs, Inner(lay), inArray, false), NewLine(lay), rest);
      StripWhite(NewLine(lay), rest, mark);
      StripList(cs, Inner(lay), inArray, NewLine(lay) + rest, mark);
      assert RenderList(cs, Compact, inArray, mark) + "" == RenderList(cs, Compact, inArray, mark);
    }
  }

  lemma {:induction false} StripList(cs: seq<Node>, lay: Layout, inArray: bool, rest: string, mark: bool)
    requires AllPrintable(cs, inArray)
    ensures Outside(RenderList(cs, lay, inArray, false) + rest, mark)
         == PrependAll(RenderList(cs, Compact, inArray, mark), Outside(rest, mark))
    decreases cs, 1
  {
    if cs == [] {
      assert "" + rest == rest;
      PrependNothing(Outside(rest, mark));
    } else {
      var more := if |cs| > 1 then [','] + RenderList(cs[1..], lay, inArray, false) else "";
      var more' := if |cs| > 1 then [','] + RenderList(cs[1..], Compact, inArray, mark) else "";
      var first := Render(cs[0], lay, inArray, false);
      Regroup(NewLine(lay), first, more, rest);
      StripWhite(NewLine(lay), first + (more + rest), mark);
      StripNode(cs[0], lay, inArray, more + rest, mark);
      StripMore(cs, lay, inArray, rest, mark);
      PrependAllTwice(Render(cs[0], Compact, inArray, mark), more', Outside(rest, mark));
      assert "" + Render(cs[0], Compact, inArray, mark) == Render(cs[0], Compact, inArray, mark);
    }
  }

  /** The comma and the rest of the list. */
  lemma {:induction false} StripMore(cs: seq<Node>, lay: Layout, inArray: bool, rest: string, mark: bool)
    requires cs != [] && AllPrintable(cs, inArray)
    ensures Outside((if |cs| > 1 then [','] + RenderList(cs[1..], lay, inArray, false) else "") + rest, mark)
         == PrependAll(if |cs| > 1 then [','] + RenderList(cs[1..], Compact, inArray, mark) else "",
                       Outside(rest, mark))
    decreases cs, 0
  {
    if |cs| > 1 {
      var tail := RenderList(cs[1..], lay, inArray, false);
      Associative([','], tail, rest);
      StripKept([','], tail + rest, mark);
      StripList(cs[1..], lay, inArray, rest, mark);
      PrependAllTwice([','], RenderList(cs[1..], Compact, inArray, mark), Outside(rest, mark));
    } else {
      assert "" + rest == rest;
      PrependNothing(Outside(rest, mark));
    }
  }

  /** Removing the white space from the formatted text of a document gives exactly its unformatted text,
      whatever white space its strings hold. */
  lemma StripPrettyIsCompact(n: Node, lay: Layout)
    requires Printable(n, true)
    ensures Outside(Render(n, lay, true, false), false) == Text(Render(n, Compact, true, false))
  {
    StripNode(n, lay, true, "", false);
    assert Render(n, lay, true, false) + "" == Render(n, lay, true, false);
    assert Render(n, Compact, true, false) + "" == Render(n, Compact, true, false);
  }
}
