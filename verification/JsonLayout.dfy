/**
 What formatted output looks like.
 */
module JsonLayout {
  import opened JsonText
  import opened JsonNode
  import opened JsonWriter
  import opened JsonRoundTrip

  function Tabs(n: nat): string {
    seq(n, _ => '\t')
  }

  function NewLineAt(depth: nat): string {
    "\n" + Tabs(depth)
  }

  /** Lays out unformatted text in one pass over it, with the number of open brackets: a line for every child and one
      for the closing bracket of a container that is not empty, as many tabs as brackets are open, and blanks around the
      colons. Quotations stay as they are. */
  function LaidOut(s: string, depth: nat): string
    decreases |s|
  {
    if s == "" then ""
    else
      var c := s[0];
      if c == '\"' then ['\"'] + LaidOutQuote(s[1..], depth)
      else if c == '[' || c == '{' then
        if |s| > 1 && (s[1] == ']' || s[1] == '}') then [c, s[1]] + LaidOut(s[2..], depth)
        else [c] + NewLineAt(depth + 1) + LaidOut(s[1..], depth + 1)
      else if c == ']' || c == '}' then
        var up := if depth == 0 then 0 else depth - 1;
        NewLineAt(up) + [c] + LaidOut(s[1..], up)
      else if c == ',' then [','] + NewLineAt(depth) + LaidOut(s[1..], depth)
      else if c == ':' then " : " + LaidOut(s[1..], depth)
      else [c] + LaidOut(s[1..], depth)
  }

  function LaidOutQuote(s: string, depth: nat): string
    decreases |s|
  {
    if s == "" then ""
    else if s[0] == '\"' then ['\"'] + LaidOut(s[1..], depth)
    else if s[0] == '\\' && |s| > 1 then [s[0], s[1]] + LaidOutQuote(s[2..], depth)
    else [s[0]] + LaidOutQuote(s[1..], depth)
  }

  // ------------------------------------------------------------ texts without structure

  predicate Unstructured(c: char) {
    c !in {'\"', '[', ']', '{', '}', ',', ':'}
  }

  lemma {:induction false} PlainStays(s: string, rest: string, depth: nat)
    requires forall i | 0 <= i < |s| :: Unstructured(s[i])
    ensures LaidOut(s + rest, depth) == s + LaidOut(rest, depth)
  {
    if s == "" {
      assert s + rest == rest;
      assert s + LaidOut(rest, depth) == LaidOut(rest, depth);
    } else {
      assert (s + rest)[0] == s[0] && (s + rest)[1..] == s[1..] + rest;
      PlainStays(s[1..], rest, depth);
      Glue([s[0]], s[1..], s, LaidOut(rest, depth));
    }
  }

  lemma Glue(a: string, b: string, ab: string, rest: string)
    requires a + b == ab
    ensures a + (b + rest) == ab + rest
  {
  }

  lemma {:induction false} QuoteStays(b: string, rest: string, depth: nat)
    requires QuotesEscaped(b)
    ensures LaidOutQuote(b + ['\"'] + rest, depth) == b + ['\"'] + LaidOut(rest, depth)
    decreases |b|
  {
    var s := b + ['\"'] + rest;
    if b == "" {
      assert s == ['\"'] + rest && s[1..] == rest;
      assert b + ['\"'] + LaidOut(rest, depth) == ['\"'] + LaidOut(rest, depth);
    } else if b[0] == '\\' {
      assert s[2..] == b[2..] + ['\"'] + rest && s[0] == b[0] && s[1] == b[1];
      QuoteStays(b[2..], rest, depth);
      Regrouped([b[0], b[1]], b[2..], b, ['\"'], LaidOut(rest, depth));
    } else {
      assert s[1..] == b[1..] + ['\"'] + rest && s[0] == b[0];
      QuoteStays(b[1..], rest, depth);
      Regrouped([b[0]], b[1..], b, ['\"'], LaidOut(rest, depth));
    }
  }

  lemma Regrouped(a: string, b: string, ab: string, q: string, rest: string)
    requires a + b == ab
    ensures a + (b + q + rest) == ab + q + rest
  {
  }

  lemma StringStays(s: string, encoded: bool, rest: string, depth: nat)
    requires GoodText(s, encoded)
    ensures var q := ['\"'] + Mark(Body(s, encoded), false) + ['\"'];
      LaidOut(q + rest, depth) == q + LaidOut(rest, depth)
  {
    var b := Body(s, encoded);
    MarkOff(b);
    if encoded {
      EscapeIsClean(s);
    } else {
      NoQuotes(s);
    }
    BodyStays(b, rest, depth);
  }

  lemma BodyStays(b: string, rest: string, depth: nat)
    requires QuotesEscaped(b)
    ensures LaidOut(['\"'] + b + ['\"'] + rest, depth) == ['\"'] + b + ['\"'] + LaidOut(rest, depth)
  {
    QuoteStays(b, rest, depth);
    var text := ['\"'] + b + ['\"'] + rest;
    assert text[1..] == b + ['\"'] + rest;
    Regrouped(['\"'], b, ['\"'] + b, ['\"'], LaidOut(rest, depth));
  }

  lemma {:induction false} NoQuotes(s: string)
    requires '\"' !in s && '\\' !in s
    ensures QuotesEscaped(s)
  {
    if s != "" {
      NoQuotes(s[1..]);
    }
  }

  // ------------------------------------------------------------ trees

  /** Formatted output is the unformatted output, laid out. */
  lemma {:induction false} FormattedValue(v: Value, rest: string, depth: nat)
    requires PrintableValue(v) && NoLoneBareNull(v)
    ensures LaidOut(RenderValue(v, Compact, false) + rest, depth) ==
            RenderValue(v, Pretty(depth), false) + LaidOut(rest, depth)
    decreases v, 0
  {
    match v
    case Null(t) => PlainStays(t, rest, depth);
    case Bool(b) => PlainStays(if b then "true" else "false", rest, depth);
    case Number(t) =>
      NumeralChars(t);
      PlainStays(t, rest, depth);
    case Str(s, e) => StringStays(s, e, rest, depth);
    case Array(cs) => FormattedContainer('[', cs, ']', true, rest, depth);
    case Object(cs) => FormattedContainer('{', cs, '}', false, rest, depth);
  }

  lemma {:induction false} FormattedContainer(l: char, cs: seq<Node>, r: char, inArray: bool, rest: string, depth: nat)
    requires Brackets(l, r) && AllPrintable(cs, inArray) && NoneInList(cs) && (inArray ==> !LoneBareNull(cs))
    ensures LaidOut([l] + RenderChildren(cs, Compact, inArray, false) + [r] + rest, depth) ==
            [l] + RenderChildren(cs, Pretty(depth), inArray, false) + [r] + LaidOut(rest, depth)
    decreases cs, 2
  {
    var list := RenderList(cs, Compact, inArray, false);
    var s := [l] + RenderChildren(cs, Compact, inArray, false) + [r] + rest;
    if cs == [] {
      assert s == [l, r] + rest && s[2..] == rest;
      assert [l] + "" + [r] == [l, r];
    } else {
      CompactIs(cs, inArray);
      assert s == [l] + (list + ([r] + rest));
      assert s[1..] == list + ([r] + rest);
      NotClosed(cs, inArray, [r] + rest);
      FormattedList(cs, inArray, [r] + rest, depth + 1);
      Closing(r, rest, depth);
      PrettyIs(cs, inArray, depth);
      var pretty := RenderList(cs, Pretty(depth + 1), inArray, false);
      assert NewLineAt(depth + 1) + LaidOut(s[1..], depth + 1) == pretty + LaidOut([r] + rest, depth + 1);
      Joined([l], NewLineAt(depth + 1), LaidOut(s[1..], depth + 1), pretty, NewLineAt(depth), [r],
             LaidOut(rest, depth));
    }
  }

  lemma Joined(l: string, n: string, t: string, pretty: string, end: string, r: string, rest: string)
    requires n + t == pretty + (end + r + rest)
    ensures l + n + t == l + (pretty + end) + r + rest
  {
    assert l + n + t == l + (n + t);
  }

  lemma CompactIs(cs: seq<Node>, inArray: bool)
    requires cs != []
    ensures RenderChildren(cs, Compact, inArray, false) == RenderList(cs, Compact, inArray, false)
  {
    assert RenderChildren(cs, Compact, inArray, false) == RenderList(cs, Compact, inArray, false) + "";
  }

  lemma PrettyIs(cs: seq<Node>, inArray: bool, depth: nat)
    requires cs != []
    ensures RenderChildren(cs, Pretty(depth), inArray, false) ==
            RenderList(cs, Pretty(depth + 1), inArray, false) + NewLineAt(depth)
  {
    assert MakeIndent(Pretty(depth)) == Tabs(depth);
  }

  lemma Closing(r: char, rest: string, depth: nat)
    requires r == ']' || r == '}'
    ensures LaidOut([r] + rest, depth + 1) == NewLineAt(depth) + [r] + LaidOut(rest, depth)
  {
    assert ([r] + rest)[1..] == rest;
  }

  /** A container with children is not taken for an empty one. */
  lemma NotClosed(cs: seq<Node>, inArray: bool, rest: string)
    requires cs != [] && AllPrintable(cs, inArray) && (inArray ==> !LoneBareNull(cs))
    ensures var s := RenderList(cs, Compact, inArray, false) + rest; s != "" && s[0] != ']' && s[0] != '}'
  {
    var list, first := RenderList(cs, Compact, inArray, false), Render(cs[0], Compact, inArray, false);
    var tail := if |cs| > 1 then [','] + RenderList(cs[1..], Compact, inArray, false) else "";
    assert list == "" + first + tail;
    if inArray {
      assert first == "" + RenderValue(cs[0].value, Compact, false);
      FirstOfValue(cs[0].value);
    } else {
      assert first[0] == '\"';
    }
  }

  lemma FirstOfValue(v: Value)
    requires PrintableValue(v)
    ensures var t := RenderValue(v, Compact, false);
      if v == Null("") then t == "" else t != "" && t[0] != ']' && t[0] != '}'
  {
    match v
    case Number(t) => NumeralChars(t);
    case _ =>
  }

  lemma {:induction false} FormattedList(cs: seq<Node>, inArray: bool, rest: string, depth: nat)
    requires cs != [] && AllPrintable(cs, inArray) && NoneInList(cs)
    ensures NewLineAt(depth) + LaidOut(RenderList(cs, Compact, inArray, false) + rest, depth) ==
            RenderList(cs, Pretty(depth), inArray, false) + LaidOut(rest, depth)
    decreases cs, 1
  {
    var tail := RestOfList(cs, Compact, inArray);
    FirstOfList(cs, Compact, inArray);
    FirstOfList(cs, Pretty(depth), inArray);
    FormattedNode(cs[0], inArray, tail + rest, depth);
    FormattedRest(cs, inArray, rest, depth);
    var first := Render(cs[0], Compact, inArray, false);
    Assembled("", first, tail, rest);
    assert "" + (first + (tail + rest)) == first + (tail + rest);
    Assembled(NewLineAt(depth), Render(cs[0], Pretty(depth), inArray, false), RestOfList(cs, Pretty(depth), inArray),
              LaidOut(rest, depth));
  }

  function RestOfList(cs: seq<Node>, lay: Layout, inArray: bool): string
    requires cs != []
  {
    if |cs| > 1 then [','] + RenderList(cs[1..], lay, inArray, false) else ""
  }

  lemma FirstOfList(cs: seq<Node>, lay: Layout, inArray: bool)
    requires cs != []
    ensures RenderList(cs, lay, inArray, false) ==
            NewLine(lay) + Render(cs[0], lay, inArray, false) + RestOfList(cs, lay, inArray)
    ensures NewLine(lay) == if lay.Pretty? then NewLineAt(lay.indent) else ""
  {
  }

  lemma {:induction false} FormattedRest(cs: seq<Node>, inArray: bool, rest: string, depth: nat)
    requires cs != [] && AllPrintable(cs, inArray) && NoneInList(cs)
    ensures LaidOut(RestOfList(cs, Compact, inArray) + rest, depth) ==
            RestOfList(cs, Pretty(depth), inArray) + LaidOut(rest, depth)
    decreases cs, 0
  {
    if |cs| > 1 {
      var list := RenderList(cs[1..], Compact, inArray, false) + rest;
      FormattedList(cs[1..], inArray, rest, depth);
      assert RestOfList(cs, Compact, inArray) + rest == [','] + list && ([','] + list)[1..] == list;
      Comma(NewLineAt(depth), LaidOut(list, depth), RenderList(cs[1..], Pretty(depth), inArray, false),
            LaidOut(rest, depth));
    } else {
      assert "" + rest == rest && "" + LaidOut(rest, depth) == LaidOut(rest, depth);
    }
  }

  lemma {:induction false} FormattedNode(n: Node, inArray: bool, rest: string, depth: nat)
    requires Printable(n, inArray) && NoLoneBareNull(n.value)
    ensures LaidOut(Render(n, Compact, inArray, false) + rest, depth) ==
            Render(n, Pretty(depth), inArray, false) + LaidOut(rest, depth)
    decreases n, 1
  {
    var value := RenderValue(n.value, Compact, false);
    FormattedName(n, inArray, value + rest, depth);
    FormattedValue(n.value, rest, depth);
    Glue(NameText(n, Compact, inArray, false), value, Render(n, Compact, inArray, false), rest);
    Glue(NameText(n, Pretty(depth), inArray, false), RenderValue(n.value, Pretty(depth), false),
         Render(n, Pretty(depth), inArray, false), LaidOut(rest, depth));
  }

  lemma Comma(n: string, t: string, list: string, rest: string)
    requires n + t == list + rest
    ensures [','] + n + t == [','] + list + rest
  {
    assert [','] + n + t == [','] + (n + t);
  }

  lemma Assembled(n: string, first: string, tail: string, rest: string)
    ensures n + (first + (tail + rest)) == n + first + tail + rest
  {
  }

  lemma FormattedName(n: Node, inArray: bool, rest: string, depth: nat)
    requires GoodText(n.name, n.nameEncoded)
    ensures LaidOut(NameText(n, Compact, inArray, false) + rest, depth) ==
            NameText(n, Pretty(depth), inArray, false) + LaidOut(rest, depth)
  {
    if inArray {
      assert "" + rest == rest && "" + LaidOut(rest, depth) == LaidOut(rest, depth);
    } else {
      var b := Mark(Body(n.name, n.nameEncoded), false);
      var q := ['\"'] + b + ['\"'];
      StringStays(n.name, n.nameEncoded, ":" + rest, depth);
      NameBehind(b, ":", "\":");
      NameBehind(b, " : ", "\" : ");
      Glue(q, ":", q + ":", rest);
      Glue(q, " : ", q + " : ", LaidOut(rest, depth));
      ColonLaidOut(rest, depth);
    }
  }

  lemma NameBehind(b: string, colon: string, end: string)
    requires end == ['\"'] + colon
    ensures ['\"'] + b + end == ['\"'] + b + ['\"'] + colon
  {
  }

  lemma ColonLaidOut(rest: string, depth: nat)
    ensures LaidOut(":" + rest, depth) == " : " + LaidOut(rest, depth)
  {
    assert (":" + rest)[1..] == rest;
  }

  /** The whole document. */
  lemma FormattedIsLaidOut(n: Node)
    requires Printable(n, true) && NoLoneBareNull(n.value)
    ensures Render(n, Pretty(0), true, false) == LaidOut(Render(n, Compact, true, false), 0)
  {
    var (c, p) := (RenderValue(n.value, Compact, false), RenderValue(n.value, Pretty(0), false));
    FormattedValue(n.value, "", 0);
    assert c + "" == c && p + "" == p && LaidOut("", 0) == "";
    assert Render(n, Compact, true, false) == "" + c == c && Render(n, Pretty(0), true, false) == "" + p == p;
  }
}
