/**
 internalJSONNode as an object: a parsed node keeps its raw text until it is fetched, and only then makes its
 children. The objects may be shared in any way; pool is the set of the nodes of the program.
 */
module JsonLazy {
  import opened Wrappers
  import opened JsonText
  import opened JsonNode
  import opened JsonWriter
  import opened JsonStripper
  import opened JsonParser
  import opened JsonMarks
  import opened JsonRoundTrip

  datatype Kind = JsonNull | JsonString | JsonNumber | JsonBool | JsonArray | JsonObject

  function KindOf(v: Value): Kind {
    match v
    case Null(_) => JsonNull
    case Bool(_) => JsonBool
    case Number(_) => JsonNumber
    case Str(_, _) => JsonString
    case Array(_) => JsonArray
    case Object(_) => JsonObject
  }

  function ChildrenOf(v: Value): seq<Node>
    requires Container(v)
  {
    if v.Array? then v.elements else v.members
  }

  function BoolText(b: bool): string {
    if b then "true" else "false"
  }

  /** The parsing constructor leaves the text for a later fetch. */
  predicate Unsettled(text: string) {
    && text != []
    && var last := text[|text| - 1];
       if text[0] == '\"' then last == '\"'
       else if text[0] == '{' then last == '}'
       else if text[0] == '[' then last == ']'
       else IsNumeric(text)
  }

  function Pending(text: string): Kind
    requires text != []
  {
    if text[0] == '\"' then JsonString
    else if text[0] == '{' then JsonObject
    else if text[0] == '[' then JsonArray
    else JsonNumber
  }

  /** The text is the unformatted text of v with its escaped quotes rewritten, as the stripper leaves it. */
  predicate Printed(text: string, v: Value) {
    PrintableValue(v) && text == RenderValue(v, Compact, true)
  }

  /** No container in the text, at any depth, turns out to be malformed when it is fetched. */
  predicate WellSplit(text: string)
    decreases |text|
  {
    SplitIsShorter(text);
    Unsettled(text) && text[0] in {'{', '['} ==>
      var pieces := Split(text);
      pieces.Children? && forall i | 0 <= i < |pieces.items| :: WellSplit(pieces.items[i].1)
  }

  /** DoNode or DoArray. */
  function Split(text: string): Pieces
    requires text != []
  {
    if text[0] == '{' then SplitObject(text) else SplitArray(text)
  }

  /** What a comparison sees of a node with a name and a text: kinds are compared before a container is fetched and
      children after, so a container that cannot be split counts as one of the children made before the fault. */
  function SeenNode(name: string, text: string): Option<Node>
    decreases |text|, 2, 0
  {
    match Unescape(name)
    case Text(n) =>
      var v := SeenValue(text);
      if v.None? then None else Some(Node(n, '\\' in name, v.value))
    case _ => None
  }

  function SeenValue(text: string): Option<Value>
    decreases |text|, 1, 0
  {
    if Unsettled(text) && text[0] in {'{', '['} then
      SplitIsShorter(text);
      var pieces := Split(text);
      if pieces.Undefined? then None
      else
        var cs := SeenList(pieces.items, |text|);
        if cs.None? then None else Some(if text[0] == '{' then Object(cs.value) else Array(cs.value))
    else ParseValue(text)
  }

  function SeenList(items: seq<(string, string)>, bound: nat): Option<seq<Node>>
    requires forall i | 0 <= i < |items| :: |items[i].1| < bound
    decreases bound, 0, |items|
  {
    if items == [] then Some([])
    else
      var first := SeenNode(items[0].0, items[0].1);
      var rest := SeenList(items[1..], bound);
      if first.None? || rest.None? then None else Some([first.value] + rest.value)
  }

  /** What is known of the texts that have not been fetched. */
  datatype Texts = AnyText | SplitText | FromWriter

  predicate Fits(texts: Texts, text: string, v: Value) {
    match texts
    case AnyText => true
    case SplitText => WellSplit(text)
    case FromWriter => Printed(text, v)
  }

  /** No quote of v is escaped when it is printed, so the stripper rewrites none. */
  predicate NoneRewritten(v: Value)
    decreases v, 0
  {
    match v
    case Str(s, e) => NoneMarked(s, e)
    case Array(cs) => NoneInList(cs, true)
    case Object(cs) => NoneInList(cs, false)
    case _ => true
  }

  predicate NoneMarked(s: string, encoded: bool) {
    Mark(Body(s, encoded), true) == Mark(Body(s, encoded), false)
  }

  predicate NoneInList(cs: seq<Node>, inArray: bool)
    decreases cs, 0
  {
    cs == [] ||
    (&& (inArray || NoneMarked(cs[0].name, cs[0].nameEncoded))
     && NoneRewritten(cs[0].value) && NoneInList(cs[1..], inArray))
  }

  /** DumpRawString; used is the global used_ascii_one. Once any quote has been rewritten, every byte 1 becomes a
      quote. */
  function Dump(s: string, used: bool): (r: string)
    ensures |r| == |s| && forall i | 0 <= i < |s| :: r[i] == if used && s[i] == '\U{1}' then '\"' else s[i]
  {
    if s == [] then [] else [if used && s[0] == '\U{1}' then '\"' else s[0]] + Dump(s[1..], used)
  }

  // ------------------------------------------------------------ the raw text

  /** What comes out is the text that should; with the global set, some of its bytes 1 may have become quotes. */
  ghost predicate Dumps(text: string, out: string, used: bool) {
    if used then Rewritten(text, out) else text == out
  }

  lemma DumpsTwice(a: string, b: string, c: string, used: bool)
    requires Dumps(a, b, used) && Dumps(b, c, used)
    ensures Dumps(a, c, used)
  {
  }

  lemma DumpsBehind(l: string, a: string, b: string, used: bool)
    requires Dumps(a, b, used)
    ensures Dumps(l + a, l + b, used)
  {
  }

  lemma DumpsBefore(a: string, b: string, r: string, used: bool)
    requires Dumps(a, b, used)
    ensures Dumps(a + r, b + r, used)
  {
  }

  lemma DumpsExactly(text: string, out: string, used: bool)
    requires Dumps(text, out, used) && (used ==> '\U{1}' !in text)
    ensures out == text
  {
    forall i | 0 <= i < |text|
      ensures text[i] == out[i]
    {
      assert text[i] in text;
    }
  }

  /** Dumping the raw text of a printed node. */
  lemma DumpPrinted(text: string, v: Value, used: bool)
    requires Printed(text, v) && (used || NoneRewritten(v))
    ensures Dumps(RenderValue(v, Compact, false), Dump(text, used), used)
  {
    RewrittenValue(v);
    NoneRewrittenIff(v);
  }

  /** Dumping prints the value if and only if, with the global set, it has no byte 1, and without, no quote of
      it was rewritten. */
  lemma DumpIff(v: Value, used: bool)
    ensures Dump(RenderValue(v, Compact, true), used) == RenderValue(v, Compact, false) <==>
            if used then '\U{1}' !in RenderValue(v, Compact, false) else NoneRewritten(v)
  {
    RewrittenValue(v);
    NoneRewrittenIff(v);
    var text, out := RenderValue(v, Compact, false), Dump(RenderValue(v, Compact, true), used);
    if used && '\U{1}' !in text {
      DumpsExactly(text, out, true);
    } else if used {
      var i :| 0 <= i < |text| && text[i] == '\U{1}';
      assert out[i] == '\"';
    }
  }

  // ------------------------------------------------------------ the texts of the children

  lemma {:induction false} ParseListAt(items: seq<(string, string)>, bound: nat, i: nat)
    requires forall k | 0 <= k < |items| :: |items[k].1| < bound
    requires ParseList(items, bound).Some?
    ensures |ParseList(items, bound).value| == |items|
    ensures i < |items| ==> ParseNode(items[i].0, items[i].1) == Some(ParseList(items, bound).value[i])
    decreases |items|
  {
    if items != [] {
      ParseListAt(items[1..], bound, if i > 0 then i - 1 else 0);
    }
  }

  lemma {:induction false} SeenListAt(items: seq<(string, string)>, bound: nat, i: nat)
    requires forall k | 0 <= k < |items| :: |items[k].1| < bound
    requires SeenList(items, bound).Some?
    ensures |SeenList(items, bound).value| == |items|
    ensures i < |items| ==> SeenNode(items[i].0, items[i].1) == Some(SeenList(items, bound).value[i])
    decreases |items|
  {
    if items != [] {
      SeenListAt(items[1..], bound, if i > 0 then i - 1 else 0);
    }
  }

  lemma {:induction false} PieceListAt(cs: seq<Node>, inArray: bool, i: nat)
    requires AllPrintable(cs, inArray) && i < |cs|
    ensures |PieceList(cs, inArray)| == |cs| && PieceList(cs, inArray)[i] == Piece(cs[i], inArray)
    ensures Printable(cs[i], inArray)
    decreases |cs|
  {
    if |cs| > 1 {
      PieceListAt(cs[1..], inArray, if i > 0 then i - 1 else 0);
    }
  }

  /** That is, the printed text is the same with and without rewriting. */
  lemma {:induction false} NoneRewrittenIff(v: Value)
    ensures NoneRewritten(v) <==> RenderValue(v, Compact, true) == RenderValue(v, Compact, false)
    decreases v, 0
  {
    match v
    case Str(s, e) =>
      RewrittenMark(Body(s, e));
      SameAround(['\"'], Mark(Body(s, e), true), Mark(Body(s, e), false), ['\"']);
    case Array(cs) => NoneInContainerIff('[', cs, ']', true);
    case Object(cs) => NoneInContainerIff('{', cs, '}', false);
    case _ =>
  }

  lemma {:induction false} NoneInContainerIff(l: char, cs: seq<Node>, r: char, inArray: bool)
    ensures NoneInList(cs, inArray) <==>
            [l] + RenderChildren(cs, Compact, inArray, true) + [r] ==
            [l] + RenderChildren(cs, Compact, inArray, false) + [r]
    decreases cs, 2
  {
    var a, b := RenderList(cs, Compact, inArray, true), RenderList(cs, Compact, inArray, false);
    NoneInListIff(cs, inArray);
    RewrittenList(cs, inArray);
    assert RenderChildren(cs, Compact, inArray, true) == a + "" == a;
    assert RenderChildren(cs, Compact, inArray, false) == b + "" == b;
    SameAround([l], a, b, [r]);
  }

  lemma {:induction false} NoneInListIff(cs: seq<Node>, inArray: bool)
    ensures NoneInList(cs, inArray) <==>
            RenderList(cs, Compact, inArray, true) == RenderList(cs, Compact, inArray, false)
    decreases cs, 1
  {
    if cs != [] {
      var a, b := Render(cs[0], Compact, inArray, true), Render(cs[0], Compact, inArray, false);
      NoneInNodeIff(cs[0], inArray);
      RewrittenNode(cs[0], inArray);
      FirstAndRest(cs, inArray, true);
      FirstAndRest(cs, inArray, false);
      NoneInListIff(cs[1..], inArray);
      if |cs| > 1 {
        var c, d := RenderList(cs[1..], Compact, inArray, true), RenderList(cs[1..], Compact, inArray, false);
        SameParts(a, [','] + c, b, [','] + d);
        SameParts([','], c, [','], d);
      }
    }
  }

  lemma {:induction false} NoneInNodeIff(n: Node, inArray: bool)
    ensures (inArray || NoneMarked(n.name, n.nameEncoded)) && NoneRewritten(n.value) <==>
            Render(n, Compact, inArray, true) == Render(n, Compact, inArray, false)
    decreases n, 1
  {
    NoneRewrittenIff(n.value);
    var a, b := Mark(Body(n.name, n.nameEncoded), true), Mark(Body(n.name, n.nameEncoded), false);
    RewrittenMark(Body(n.name, n.nameEncoded));
    SameAround(['\"'], a, b, "\":");
    SameParts(NameText(n, Compact, inArray, true), RenderValue(n.value, Compact, true),
              NameText(n, Compact, inArray, false), RenderValue(n.value, Compact, false));
  }

  lemma SameAround(l: string, a: string, b: string, r: string)
    requires |a| == |b|
    ensures l + a + r == l + b + r <==> a == b
  {
    assert (l + a + r)[|l|..|l| + |a|] == a && (l + b + r)[|l|..|l| + |b|] == b;
  }

  lemma SameParts(a: string, b: string, c: string, d: string)
    requires |a| == |c|
    ensures a + b == c + d <==> a == c && b == d
  {
    assert (a + b)[..|a|] == a && (c + d)[..|a|] == c;
    assert (a + b)[|a|..] == b && (c + d)[|a|..] == d;
  }

  lemma FirstAndRest(cs: seq<Node>, inArray: bool, mark: bool)
    requires cs != []
    ensures RenderList(cs, Compact, inArray, mark) ==
            if |cs| == 1 then Render(cs[0], Compact, inArray, mark)
            else Render(cs[0], Compact, inArray, mark) + ([','] + RenderList(cs[1..], Compact, inArray, mark))
  {
    assert NewLine(Compact) + Render(cs[0], Compact, inArray, mark) == Render(cs[0], Compact, inArray, mark);
  }

  lemma {:induction false} NoneInListAt(cs: seq<Node>, inArray: bool, i: nat)
    requires i < |cs| && NoneInList(cs, inArray)
    ensures NoneRewritten(cs[i].value)
    decreases |cs|
  {
    if i > 0 {
      NoneInListAt(cs[1..], inArray, i - 1);
    }
  }

  /** Parsing printed text again changes nothing: the parsed tree is its own parse. */
  lemma PrintedIsSettled(text: string, v: Value)
    requires Printed(text, v) && ParseValue(text) == Some(v)
    ensures ReparseValue(v) == v && (v.Array? ==> !LoneBareNull(v.elements))
  {
    ParsePrintedValue(v);
  }

  /** The pieces of a printed container are the printed texts of its children. */
  lemma PrintedPieces(text: string, v: Value, i: nat)
    requires Printed(text, v) && ParseValue(text) == Some(v) && Container(v)
    ensures var cs := ChildrenOf(v);
      var pieces := if v.Array? then SplitArray(text) else SplitObject(text);
      && pieces.Children? && |pieces.items| == |cs|
      && (i < |cs| ==> Printed(pieces.items[i].1, cs[i].value))
  {
    PrintedIsSettled(text, v);
    var cs, inArray := ChildrenOf(v), v.Array?;
    if inArray {
      SplitPrintedArray(cs);
    } else {
      SplitPrintedObject(cs);
    }
    if i < |cs| {
      PieceListAt(cs, inArray, i);
    } else if cs != [] {
      PieceListAt(cs, inArray, 0);
    }
  }

  lemma PiecesAreWellSplit(text: string, items: seq<(string, string)>, i: nat)
    requires WellSplit(text) && Unsettled(text) && text[0] in {'{', '['}
    requires i < |items| && Children(items) == Split(text)
    ensures WellSplit(items[i].1)
  {
  }

  lemma PieceFits(text: string, v: Value, texts: Texts, items: seq<(string, string)>, i: nat)
    requires ParseValue(text) == Some(v) && Fits(texts, text, v) && Unsettled(text) && text[0] in {'{', '['}
    requires Children(items) == Split(text) && Container(v) && i < |items| == |ChildrenOf(v)|
    requires v.Array? <==> text[0] == '['
    ensures Fits(texts, items[i].1, ChildrenOf(v)[i].value)
  {
    if texts.FromWriter? {
      PrintedPieces(text, v, i);
    } else if texts.SplitText? {
      PiecesAreWellSplit(text, items, i);
    }
  }

  lemma {:induction false} PrintedIsWellSplit(text: string, v: Value)
    requires Printed(text, v)
    ensures WellSplit(text) && (Unsettled(text) ==> Pending(text) == KindOf(v))
    decreases v
  {
    match v
    case Number(t) => NumeralChars(t);
    case Array(cs) =>
      SplitPrintedArray(cs);
      var kids := if LoneBareNull(cs) then [] else cs;
      forall i | 0 <= i < |kids|
        ensures |PieceList(kids, true)| == |kids| && WellSplit(PieceList(kids, true)[i].1)
      {
        PieceListAt(cs, true, i);
        PrintedIsWellSplit(PieceList(cs, true)[i].1, cs[i].value);
      }
      PieceListLength(kids, true);
    case Object(cs) =>
      SplitPrintedObject(cs);
      forall i | 0 <= i < |cs|
        ensures |PieceList(cs, false)| == |cs| && WellSplit(PieceList(cs, false)[i].1)
      {
        PieceListAt(cs, false, i);
        PrintedIsWellSplit(PieceList(cs, false)[i].1, cs[i].value);
      }
      PieceListLength(cs, false);
    case _ =>
  }

  lemma {:induction false} PieceListLength(cs: seq<Node>, inArray: bool)
    ensures |PieceList(cs, inArray)| == |cs|
  {
    if cs != [] {
      PieceListLength(cs[1..], inArray);
    }
  }

  /** Without malformed containers a comparison sees the value. */
  lemma {:induction false} SplitIsSeen(text: string)
    requires WellSplit(text)
    ensures SeenValue(text) == ParseValue(text)
    decreases |text|, 1
  {
    SplitIsShorter(text);
    if Unsettled(text) && text[0] in {'{', '['} {
      SplitListIsSeen(Split(text).items, |text|);
    }
  }

  lemma {:induction false} SplitListIsSeen(items: seq<(string, string)>, bound: nat)
    requires forall i | 0 <= i < |items| :: |items[i].1| < bound && WellSplit(items[i].1)
    ensures SeenList(items, bound) == ParseList(items, bound)
    decreases bound, 0, |items|
  {
    if items != [] {
      SplitIsSeen(items[0].1);
      SplitListIsSeen(items[1..], bound);
    }
  }

  /** With a malformed container, no tree is both the value and what is seen of it. */
  lemma {:induction false} SeenAndMeantIsSplit(text: string, v: Value, u: Value, w: Value)
    requires ParseValue(text) == Some(v) && SeenValue(text) == Some(u) && SameValue(v, w) && SameValue(u, w)
    ensures WellSplit(text)
    decreases |text|
  {
    SplitIsShorter(text);
    if Unsettled(text) && text[0] in {'{', '['} {
      var items := Split(text).items;
      ParseListAt(items, |text|, 0);
      SeenListAt(items, |text|, 0);
      forall i | 0 <= i < |items|
        ensures WellSplit(items[i].1)
      {
        ParseListAt(items, |text|, i);
        SeenListAt(items, |text|, i);
        SameAt(ChildrenOf(v), ChildrenOf(w), i);
        SameAt(ChildrenOf(u), ChildrenOf(w), i);
        SeenAndMeantIsSplit(items[i].1, ChildrenOf(v)[i].value, ChildrenOf(u)[i].value, ChildrenOf(w)[i].value);
      }
    }
  }

  /** Comparing what is seen of a text with a tree gives the right answer if and only if the text has no malformed
      container, or the tree is neither the value of the text nor what is seen of it. */
  lemma AnswerIsRightIff(text: string, v: Value, u: Value, w: Value)
    requires ParseValue(text) == Some(v) && SeenValue(text) == Some(u)
    ensures SameValue(u, w) == SameValue(v, w) <==> WellSplit(text) || (!SameValue(v, w) && !SameValue(u, w))
  {
    if WellSplit(text) {
      SplitIsSeen(text);
    } else if SameValue(v, w) && SameValue(u, w) {
      SeenAndMeantIsSplit(text, v, u, w);
    }
  }

  /** Two documents with an element that cannot be split because of its colon. */
  lemma MisledElements()
    ensures SplitArray("[[1:2],null]") == Children([("", "[1:2]"), ("", "null")])
    ensures SplitArray("[[1:2],[]]") == Children([("", "[1:2]"), ("", "[]")])
  {
    SplitOfMisled("[[1:2],null]", "[1:2]", "null]", "null");
    SplitOfMisled("[[1:2],[]]", "[1:2]", "[]]", "[]");
  }

  /** The elements of the first are both null, but are seen as different. */
  lemma KindsMislead()
    ensures var (a, b) := (ParseNode("", "[1:2]"), ParseNode("", "null"));
      a.Some? && b.Some? && Same(a.value, b.value)
    ensures var (a, b) := (SeenNode("", "[1:2]"), SeenNode("", "null"));
      a.Some? && b.Some? && !Same(a.value, b.value)
  {
    ColonInArray();
    TextsOfMisled("[1:2]", "null", "[]");
  }

  /** The elements of the second are different, a null and an empty array, but are seen as the same: no child was made
      before the fault. */
  lemma EmptyArrayMisleads()
    ensures var (a, b) := (ParseNode("", "[1:2]"), ParseNode("", "[]"));
      a.Some? && b.Some? && !Same(a.value, b.value)
    ensures var (a, b) := (SeenNode("", "[1:2]"), SeenNode("", "[]"));
      a.Some? && b.Some? && Same(a.value, b.value)
  {
    ColonInArray();
    TextsOfMisled("[1:2]", "null", "[]");
  }

  lemma TextsOfMisled(s: string, t: string, e: string)
    requires s != "" && s[0] == '[' && s[|s| - 1] == ']' && SplitArray(s) == Nullified([]) && t == "null" && e == "[]"
    ensures ParseNode("", s) == Some(Node("", false, Null(""))) && SeenNode("", s) == Some(Node("", false, Array([])))
    ensures ParseNode("", t) == SeenNode("", t) == Some(Node("", false, Null("null")))
    ensures ParseNode("", e) == SeenNode("", e) == Some(Node("", false, Array([])))
  {
    EmptyText();
    assert SplitArray(e) == Children([]) && ParseList([], |e|) == Some([]) && SeenList([], |e|) == Some([]);
    assert SeenList([], |s|) == Some([]);
  }

  lemma EmptyText()
    ensures Unescape("") == Text("") && '\\' !in ""
  {
  }

  lemma ColonInArray()
    ensures SplitArray("[1:2]") == Nullified([])
  {
    var s := "1:2]";
    assert s[1..] == ":2]" && s[2..] == "2]" && s[3..] == "]";
    assert Find(':', ":2]") == Some(":2]") && Find(':', s) == Some(":2]");
    assert Find(',', "]").None? && Find(',', "2]") == Find(',', "2]"[1..]) && Find(',', ":2]") == Find(',', ":2]"[1..]);
    assert s[..3] == "1:2" && "1:2"[1..] == ":2";
    assert Find(':', ":2") == Some(":2") && Find(':', "1:2") == Some(":2");
    assert "[1:2]"[1..] == s;
  }

  lemma SplitOfMisled(text: string, inner: string, rest: string, item: string)
    requires text == "[" + (inner + ("," + rest)) && inner == "[1:2]" && rest == item + "]" && item in {"null", "[]"}
    ensures SplitArray(text) == Children([("", inner), ("", item)])
  {
    var tail := "," + rest;
    InnerIsSkipped(inner, ',', tail);
    InnerIsSkipped(inner, ':', "");
    LastItem(rest, item);
    assert inner + "" == inner;
    FirstItem(inner, tail);
    assert tail[1..] == rest && text[1..] == inner + tail;
  }

  lemma FirstItem(inner: string, tail: string)
    requires inner != "" && inner[0] != '#' && '\0' !in inner && tail != "" && tail[0] == ','
    requires Find(',', inner + tail) == Some(tail) && Find(':', inner).None?
    ensures ArrayItems(inner + tail) == Cons(("", inner), ArrayItems(tail[1..]))
  {
    CStringWhole(inner);
    assert (inner + tail)[..|inner + tail| - |tail|] == inner;
  }

  lemma InnerIsSkipped(inner: string, ch: char, tail: string)
    requires inner == "[1:2]" && ch in {',', ':'} && (tail == "" || tail[0] == ch)
    ensures Find(ch, inner + tail) == if tail == "" then None else Some(tail)
  {
    assert (inner + tail)[1..] == "1:2]" + tail;
    SkipInner(tail);
  }

  lemma LastItem(rest: string, item: string)
    requires rest == item + "]" && item in {"null", "[]"}
    ensures ArrayItems(rest) == Children([("", item)])
  {
    if item == "null" {
      NullPiece(rest, ',');
      NullPiece(item, ':');
    } else {
      EmptyPiece(rest, ',', "]");
      EmptyPiece(item, ':', "");
    }
    assert rest[..|rest| - 1] == item;
    CStringWhole(item);
  }

  lemma EmptyPiece(s: string, ch: char, tail: string)
    requires s == "[]" + tail && ch in {',', ':'} && (tail == "" || tail == "]")
    ensures Find(ch, s).None?
  {
    assert s[1..] == "]" + tail && s[1..][1..] == tail;
    assert SkipBracket('[', ']', s[1..], 1) == SkipBracket('[', ']', tail, 0);
  }

  lemma SkipInner(tail: string)
    ensures SkipBracket('[', ']', "1:2]" + tail, 1) == Some(tail)
  {
    var s := "1:2]" + tail;
    assert s[1..] == ":2]" + tail && s[1..][1..] == "2]" + tail && s[2..][1..] == "]" + tail && s[3..][1..] == tail;
    assert SkipBracket('[', ']', "]" + tail, 1) == SkipBracket('[', ']', tail, 0);
    assert SkipBracket('[', ']', "2]" + tail, 1) == SkipBracket('[', ']', "]" + tail, 1);
    assert SkipBracket('[', ']', ":2]" + tail, 1) == SkipBracket('[', ']', "2]" + tail, 1);
  }

  lemma {:induction false} NullPiece(s: string, ch: char)
    requires forall i | 0 <= i < |s| :: s[i] in {'n', 'u', 'l', ']'}
    requires ch !in {'n', 'u', 'l', ']'}
    ensures Find(ch, s).None?
  {
    if s != [] && s[0] != ']' {
      NullPiece(s[1..], ch);
    }
  }

  lemma SameListAt(cs: seq<Node>, ds: seq<Node>, i: nat)
    requires i < |cs| == |ds|
    ensures SameList(cs[i..], ds[i..]) == (Same(cs[i], ds[i]) && SameList(cs[i + 1..], ds[i + 1..]))
  {
    assert cs[i..][1..] == cs[i + 1..] && ds[i..][1..] == ds[i + 1..];
  }

  lemma {:induction false} SameAsItself(v: Value)
    ensures SameValue(v, v)
    decreases v, 0
  {
    if Container(v) {
      SameListAsItself(ChildrenOf(v));
    }
  }

  lemma {:induction false} SameListAsItself(cs: seq<Node>)
    ensures SameList(cs, cs)
    decreases cs, 0
  {
    if cs != [] {
      SameAsItself(cs[0].value);
      SameListAsItself(cs[1..]);
    }
  }

  lemma {:induction false} SameAt(cs: seq<Node>, ds: seq<Node>, i: nat)
    requires SameList(cs, ds) && i < |cs| == |ds|
    ensures Same(cs[i], ds[i])
    decreases i
  {
    if i > 0 {
      SameAt(cs[1..], ds[1..], i - 1);
    }
  }

  // ------------------------------------------------------------ the nodes

  /** The children of the nodes in the pool are in the pool. */
  ghost predicate Closed(pool: set<LazyNode>)
    reads pool
  {
    forall x, i | x in pool && 0 <= i < |x.children| :: x.children[i] in pool
  }

  /** Fetching nodes of the pool is the only thing that has happened to them. */
  twostate predicate AllStand(pool: set<LazyNode>)
    reads *
  {
    forall x | x in pool :: x.NameStays() && x.Stays() && x.Keeps()
  }

  /** Where a node stands in the trees that are compared. */
  type Path = seq<nat>

  predicate Apart(p: Path, q: Path) {
    exists k | 0 <= k < |p| && k < |q| :: p[k] != q[k]
  }

  lemma BelowIsApart(p: Path, q: Path, i: nat, j: nat)
    ensures Apart(p, q) ==> Apart(p + [i], q) && Apart(p, q + [j]) && Apart(p + [i], q + [j])
    ensures i != j ==> Apart(p + [i], p + [j])
  {
    if Apart(p, q) {
      var k :| 0 <= k < |p| && k < |q| && p[k] != q[k];
      assert (p + [i])[k] == p[k] && (q + [j])[k] == q[k];
    }
    assert (p + [i])[|p|] == i && (p + [j])[|p|] == j;
  }

  /** What is seen of the nodes is still the same, except for those at or below one of two places. */
  twostate predicate LooksStay(pool: set<LazyNode>, p: Path, q: Path)
    reads *
  {
    forall y, u: Value, r | y in pool && Apart(r, p) && Apart(r, q) && old(y.Looks(u, r)) :: y.Looks(u, r)
  }

  /** When that holds of one node and no other has changed, it holds of every node. */
  twostate lemma OthersLook(pool: set<LazyNode>, new x: LazyNode, new p: Path)
    requires x in pool && old(Closed(pool)) && x.NameStays() && forall z | z in pool && z != x :: z.Untouched()
    requires forall u: Value, r | Apart(r, p) && old(x.Looks(u, r)) :: x.Looks(u, r)
    ensures LooksStay(pool, p, p)
  {
    forall y, u: Value, r | y in pool && Apart(r, p) && old(y.Looks(u, r))
      ensures y.Looks(u, r)
    {
      StillLooks(pool, x, y, p, u, r);
    }
  }

  twostate lemma {:induction false} StillLooks(pool: set<LazyNode>, new x: LazyNode, new y: LazyNode, new p: Path,
                                               new u: Value, new r: Path)
    requires x in pool && y in pool && old(Closed(pool)) && x.NameStays()
    requires forall z | z in pool && z != x :: z.Untouched()
    requires forall u: Value, r | Apart(r, p) && old(x.Looks(u, r)) :: x.Looks(u, r)
    requires Apart(r, p) && old(y.Looks(u, r))
    ensures y.Looks(u, r)
    decreases u
  {
    if y != x && y.fetched && Container(u) {
      var cs := ChildrenOf(u);
      forall i: nat | i < |cs|
        ensures y.children[i].IsSeenAs(cs[i], r + [i])
      {
        assert old(y.children[i].IsSeenAs(cs[i], r + [i]));
        BelowIsApart(r, p, i, 0);
        StillLooks(pool, x, y.children[i], p, cs[i].value, r + [i]);
      }
    }
  }

  /** When one node still stands for all it stood for and no other node has changed, the same holds for every
      node. */
  twostate lemma OthersStand(pool: set<LazyNode>, new x: LazyNode)
    requires x in pool && old(Closed(pool)) && x.NameStays() && x.Stays() && x.Keeps()
    requires forall z | z in pool && z != x :: z.Untouched()
    ensures AllStand(pool)
  {
    forall y | y in pool
      ensures y.Keeps()
    {
      forall v: Value, texts: Texts | old(y.Holds(v, texts))
        ensures y.Holds(v, texts)
      {
        StillHolds(pool, x, y, v, texts);
      }
    }
  }

  twostate lemma {:induction false} StillHolds(pool: set<LazyNode>, new x: LazyNode, new y: LazyNode,
                                               new v: Value, new texts: Texts)
    requires x in pool && y in pool && old(Closed(pool)) && x.NameStays() && x.Stays() && x.Keeps()
    requires forall z | z in pool && z != x :: z.Untouched()
    requires old(y.Holds(v, texts))
    ensures y.Holds(v, texts)
    decreases v
  {
    if y != x && y.fetched && Container(v) {
      var cs := ChildrenOf(v);
      forall i | 0 <= i < |cs|
        ensures y.children[i].IsNode(cs[i], texts)
      {
        assert old(y.children[i].IsNode(cs[i], texts));
        StillHolds(pool, x, y.children[i], cs[i].value, texts);
      }
    }
  }

  /** All children have been written. */
  lemma ListWritten(output: string, cs: seq<Node>, lay: Layout, inArray: bool, list: string, out: string, used: bool)
    requires cs != [] && Dumps(output + RenderList(cs, Inner(lay), inArray, false), list, used)
    requires out == if lay.Pretty? then list + "\n" + MakeIndent(lay) else list
    ensures Dumps(output + RenderChildren(cs, lay, inArray, false), out, used)
  {
    var all, end := RenderList(cs, Inner(lay), inArray, false), NewLine(lay);
    Associative(list, "\n", MakeIndent(lay));
    assert out == list + end;
    Associative(output, all, end);
    assert RenderChildren(cs, lay, inArray, false) == all + end;
    DumpsBefore(output + all, list, end, used);
  }

  /** One child has been written. */
  lemma OneWritten(all: string, expected: string, out: string, comma: string, rest: string, used: bool)
    requires Dumps(all, expected + comma + rest, used) && Dumps(expected, out, used)
    ensures Dumps(all, out + comma + rest, used)
  {
    Associative(expected, comma, rest);
    Associative(out, comma, rest);
    DumpsBefore(expected, out, comma + rest, used);
    DumpsTwice(all, expected + comma + rest, out + comma + rest, used);
  }

  class LazyNode {
    var kind: Kind
    var name: string
    var nameEncoded: bool
    var text: string
    var textEncoded: bool
    var flag: bool
    var fetched: bool
    var children: seq<LazyNode>
    /** Where the node is in the tree that it was made for. */
    ghost var place: Path

    /** The node stands for the value v, whatever has been fetched of it; texts says what the texts are that have
        not been fetched. */
    ghost predicate Holds(v: Value, texts: Texts)
      reads *
      decreases v
    {
      if !fetched then
        && Unsettled(text) && kind == Pending(text)
        && ParseValue(text) == Some(v)
        && Fits(texts, text, v)
      else
        && kind == KindOf(v)
        && match v
           case Null(t) => text == t
           case Bool(b) => flag == b && text == BoolText(b)
           case Number(t) => text == t
           case Str(s, e) => text == s && textEncoded == e
           case Array(cs) => |children| == |cs| && forall i | 0 <= i < |cs| :: children[i].IsNode(cs[i], texts)
           case Object(cs) => |children| == |cs| && forall i | 0 <= i < |cs| :: children[i].IsNode(cs[i], texts)
    }

    ghost predicate IsNode(n: Node, texts: Texts)
      reads *
      decreases n
    {
      name == n.name && nameEncoded == n.nameEncoded && Holds(n.value, texts)
    }

    /** What a comparison sees of the node, at the place p, is u. A node whose text has a malformed container stands
        at one place only, its own; all other nodes may be shared in any way. */
    ghost predicate Looks(u: Value, p: Path)
      reads *
      decreases u
    {
      if !fetched then
        && Unsettled(text) && kind == Pending(text) && SeenValue(text) == Some(u)
        && (WellSplit(text) || place == p)
      else
        && kind == KindOf(u)
        && match u
           case Null(t) => text == t
           case Bool(b) => flag == b && text == BoolText(b)
           case Number(t) => text == t
           case Str(s, e) => text == s && textEncoded == e
           case Array(cs) => |children| == |cs| && forall i: nat | i < |cs| :: children[i].IsSeenAs(cs[i], p + [i])
           case Object(cs) => |children| == |cs| && forall i: nat | i < |cs| :: children[i].IsSeenAs(cs[i], p + [i])
    }

    ghost predicate IsSeenAs(n: Node, p: Path)
      reads *
      decreases n
    {
      name == n.name && nameEncoded == n.nameEncoded && Looks(n.value, p)
    }

    /** The same once the node has been fetched: a malformed container has become a null, and its children are those
        that were made before the fault. */
    ghost predicate Opened(u: Value, p: Path)
      reads *
    {
      && fetched
      && if Container(u) then
           && kind in {KindOf(u), JsonNull} && |children| == |ChildrenOf(u)|
           && forall i: nat | i < |children| :: children[i].IsSeenAs(ChildrenOf(u)[i], p + [i])
         else
           Looks(u, p)
    }

    /** A node as its constructor leaves it. */
    ghost predicate Parsed(nameText: string, valueText: string)
      reads this
    {
      && (Unescape(nameText).Text? ==> name == Unescape(nameText).text && nameEncoded == ('\\' in nameText))
      && fetched == !Unsettled(valueText)
      && if fetched then
           match ParseValue(valueText)
           case Some(Null(t)) => kind == JsonNull && text == t
           case Some(Bool(b)) => kind == JsonBool && flag == b && text == BoolText(b)
           case _ => false
         else
           kind == Pending(valueText) && text == valueText
    }

    lemma ParsedIsNode(nameText: string, valueText: string)
      requires Parsed(nameText, valueText) && ParseNode(nameText, valueText).Some?
      ensures var n := ParseNode(nameText, valueText).value;
        forall texts | Fits(texts, valueText, n.value) :: IsNode(n, texts)
    {
    }

    lemma ParsedIsSeen(nameText: string, valueText: string, p: Path)
      requires Parsed(nameText, valueText) && SeenNode(nameText, valueText).Some?
      requires Unsettled(valueText) ==> place == p
      ensures IsSeenAs(SeenNode(nameText, valueText).value, p)
    {
    }

    /** The parsing constructor with a name. Text that is not well formed makes a null. */
    constructor (nameText: string, valueText: string, ghost place: Path)
      ensures children == [] && Parsed(nameText, valueText) && this.place == place
    {
      this.place := place;
      var fixed, encoded := FixString(nameText);
      name, nameEncoded := if fixed.Text? then fixed.text else "", encoded;
      text, textEncoded, flag, children := valueText, false, false, [];
      kind, fetched := JsonNull, true;
      if valueText != "" {
        var first, last := valueText[0], valueText[|valueText| - 1];
        if (first == '\"' && last == '\"') || (first == '{' && last == '}') || (first == '[' && last == ']') {
          kind, fetched := Pending(valueText), false;
        } else if first in {'\"', '{', '['} {
          text := "null";
        } else if first in {'t', 'T', 'f', 'F'} {
          if valueText == BoolText(first in {'t', 'T'}) {
            kind, flag := JsonBool, first in {'t', 'T'};
          } else {
            text := "null";
          }
        } else if first in {'n', 'N'} {
          text := "null";
        } else if IsNumeric(valueText) {
          kind, fetched := JsonNumber, false;
        } else {
          text := "null";
        }
      }
    }

    /** The parsing constructor of a root. */
    constructor Root(unparsed: string, ghost place: Path)
      ensures this.place == place && children == []
      ensures name == "" && !nameEncoded && text == (if fetched then "null" else unparsed)
      ensures fetched == (unparsed == "" || unparsed[0] !in {'{', '['})
      ensures kind == if fetched then JsonNull else Pending(unparsed)
    {
      this.place := place;
      name, nameEncoded, text, textEncoded, flag, children := "", false, unparsed, false, false, [];
      if unparsed != "" && unparsed[0] in {'{', '['} {
        kind, fetched := Pending(unparsed), false;
      } else {
        kind, text, fetched := JsonNull, "null", true;
      }
    }

    /** All that the node stood for it still stands for. */
    twostate predicate Keeps()
      reads *
    {
      forall v: Value, texts: Texts | old(Holds(v, texts)) :: Holds(v, texts)
    }

    method Nullify()
      modifies this`kind, this`text, this`fetched
      ensures kind == JsonNull && text == "null" && fetched
    {
      kind, text, fetched := JsonNull, "null", true;
    }

    method FetchString()
      requires !fetched && kind == JsonString
      modifies this
      ensures fetched && name == old(name) && nameEncoded == old(nameEncoded) && children == old(children)
      ensures Keeps()
    {
      if text == "" || text[0] != '\"' || text[|text| - 1] != '\"' || |text| < 2 {
        Nullify();
      } else {
        var fixed, encoded := FixString(text[1..|text| - 1]);
        text, textEncoded := if fixed.Text? then fixed.text else "", encoded;
      }
      fetched := true;
    }

    /** The kind is settled when the node is made, except for text that is not well formed. */
    lemma KindIsRight(v: Value, texts: Texts)
      requires Holds(v, texts) && !texts.AnyText?
      ensures kind == KindOf(v)
      ensures v.Number? ==> text == v.text
    {
      if !fetched && texts.FromWriter? {
        PrintedIsWellSplit(text, v);
      }
    }

    /** Write. Unfetched text is dumped, and only formatted output fetches. The global used_ascii_one is set when a
        quote of the document was rewritten, and stays set. */
    method Write(lay: Layout, arrayChild: bool, output: string, used: bool, ghost n: Node, ghost pool: set<LazyNode>)
      returns (out: string, ghost grown: set<LazyNode>)
      requires this in pool && Closed(pool) && IsNode(n, FromWriter) && (used || NoneRewritten(n.value))
      modifies pool
      ensures Dumps(output + Render(n, lay, arrayChild, false), out, used)
      ensures pool <= grown && fresh(grown - pool) && Closed(grown) && AllStand(pool)
      decreases n, 1
    {
      grown := pool;
      out := WriteName(Node(name, nameEncoded, Null("")), lay.Pretty?, arrayChild, output);
      Associative(output, NameText(n, lay, arrayChild, false), RenderValue(n.value, lay, false));
      KindIsRight(n.value, FromWriter);
      if kind in {JsonObject, JsonArray} && (lay.Pretty? || fetched) {
        grown := Fetch(pool);
        out, grown := WriteContainer(lay, out, used, n.value, grown);
      } else {
        out := WriteLeaf(out, used, n.value, lay);
      }
    }

    /** What Write does without children: the raw dump, a literal or a string. */
    method WriteLeaf(output: string, used: bool, ghost v: Value, lay: Layout) returns (out: string)
      requires Holds(v, FromWriter) && (used || NoneRewritten(v))
      requires kind in {JsonObject, JsonArray} ==> lay.Compact? && !fetched
      ensures Dumps(output + RenderValue(v, lay, false), out, used)
    {
      KindIsRight(v, FromWriter);
      if !fetched && (lay.Compact? || kind == JsonString) {
        out := output + Dump(text, used);
        DumpPrinted(text, v, used);
        DumpsBehind(output, RenderValue(v, Compact, false), Dump(text, used), used);
      } else if kind == JsonString {
        out := UnfixString(text, textEncoded, output + ['\"']);
        out := out + ['\"'];
        MarkOff(Body(text, textEncoded));
        Bracketed(output, '\"', Body(text, textEncoded), '\"');
      } else {
        out := output + text;
      }
    }

    method WriteContainer(lay: Layout, output: string, used: bool, ghost v: Value, ghost pool: set<LazyNode>)
      returns (out: string, ghost grown: set<LazyNode>)
      requires this in pool && Closed(pool) && Holds(v, FromWriter) && fetched && Container(v)
      requires (used || NoneRewritten(v))
      modifies pool
      ensures Dumps(output + RenderValue(v, lay, false), out, used)
      ensures pool <= grown && fresh(grown - pool) && Closed(grown) && AllStand(pool)
      decreases v, 0
    {
      ghost var cs := ChildrenOf(v);
      var open, close := if kind == JsonArray then '[' else '{', if kind == JsonArray then ']' else '}';
      if !used {
        forall i | 0 <= i < |cs|
          ensures NoneRewritten(cs[i].value)
        {
          NoneInListAt(cs, v.Array?, i);
        }
      }
      out, grown := WriteChildren(lay, output + [open], used, cs, pool);
      ghost var inner := RenderChildren(cs, lay, v.Array?, false);
      DumpsBefore(output + [open] + inner, out, [close], used);
      Bracketed(output, open, inner, close);
      out := out + [close];
    }

    method WriteChildren(lay: Layout, output: string, used: bool, ghost cs: seq<Node>, ghost pool: set<LazyNode>)
      returns (out: string, ghost grown: set<LazyNode>)
      requires this in pool && Closed(pool) && fetched && kind in {JsonArray, JsonObject}
      requires |children| == |cs| && forall i | 0 <= i < |cs| :: children[i].IsNode(cs[i], FromWriter)
      requires used || forall i | 0 <= i < |cs| :: NoneRewritten(cs[i].value)
      modifies pool
      ensures Dumps(output + RenderChildren(cs, lay, kind == JsonArray, false), out, used)
      ensures pool <= grown && fresh(grown - pool) && Closed(grown) && AllStand(pool)
      decreases cs, 0
    {
      out, grown := output, pool;
      if children == [] {
        return;
      }
      var inArray, inner, kids := kind == JsonArray, Inner(lay), children;
      ghost var all := output + RenderList(cs, inner, inArray, false);
      assert cs[0..] == cs;
      for i := 0 to |kids|
        invariant pool <= grown && fresh(grown - pool) && Closed(grown) && AllStand(pool)
        invariant Dumps(all, out + RenderList(cs[i..], inner, inArray, false), used)
      {
        ghost var before, rest := out + NewLine(inner), RenderList(cs[i + 1..], inner, inArray, false);
        ghost var comma := if i + 1 < |cs| then [','] else "";
        RenderListAt(cs, i, inner, inArray);
        Append4(out, NewLine(inner), Render(cs[i], inner, inArray, false), comma, rest);
        out, grown := kids[i].Write(inner, inArray, out + NewLine(inner), used, cs[i], grown);
        OneWritten(all, before + Render(cs[i], inner, inArray, false), out, comma, rest, used);
        out := out + (if i + 1 < |kids| then [','] else "");
      }
      ghost var list := out;
      assert out + "" == out;
      if lay.Pretty? {
        out := out + "\n" + MakeIndent(lay);
      }
      ListWritten(output, cs, lay, inArray, list, out, used);
    }

    /** A node stands for one value. */
    lemma {:induction false} HoldsOne(v: Value, w: Value, texts: Texts, others: Texts)
      requires Holds(v, texts) && Holds(w, others)
      ensures v == w
      decreases v
    {
      if fetched && Container(v) {
        var cs, ds := ChildrenOf(v), ChildrenOf(w);
        forall i | 0 <= i < |cs|
          ensures cs[i] == ds[i]
        {
          children[i].HoldsOne(cs[i].value, ds[i].value, texts, others);
        }
      }
    }

    /** What is known of the texts may be forgotten. */
    lemma {:induction false} StandsForLess(v: Value, texts: Texts)
      requires Holds(v, texts)
      ensures Holds(v, AnyText) && (texts.FromWriter? ==> Holds(v, SplitText))
      decreases v
    {
      if !fetched && texts.FromWriter? {
        PrintedIsWellSplit(text, v);
      } else if fetched && Container(v) {
        var cs := ChildrenOf(v);
        forall i | 0 <= i < |cs|
          ensures children[i].IsNode(cs[i], AnyText) && (texts.FromWriter? ==> children[i].IsNode(cs[i], SplitText))
        {
          children[i].StandsForLess(cs[i].value, texts);
        }
      }
    }

    /** Without malformed containers the value is seen, at any place. */
    lemma {:induction false} SplitLooks(v: Value, p: Path)
      requires Holds(v, SplitText)
      ensures Looks(v, p)
      decreases v
    {
      if !fetched {
        SplitIsSeen(text);
      } else if Container(v) {
        var cs := ChildrenOf(v);
        forall i: nat | i < |cs|
          ensures children[i].IsSeenAs(cs[i], p + [i])
        {
          assert children[i].IsNode(cs[i], SplitText);
          children[i].SplitLooks(cs[i].value, p + [i]);
        }
      }
    }

    lemma {:induction false} LooksOne(u: Value, w: Value, p: Path, q: Path)
      requires Looks(u, p) && Looks(w, q)
      ensures u == w
      decreases u
    {
      if fetched && Container(u) {
        var cs, ds := ChildrenOf(u), ChildrenOf(w);
        forall i: nat | i < |cs|
          ensures cs[i] == ds[i]
        {
          assert children[i].IsSeenAs(cs[i], p + [i]) && children[i].IsSeenAs(ds[i], q + [i]);
          children[i].LooksOne(cs[i].value, ds[i].value, p + [i], q + [i]);
        }
      }
    }

    /** With a malformed container, no tree is both the value and what is seen of it. */
    lemma {:induction false} SeenAndMeant(v: Value, u: Value, w: Value, p: Path)
      requires Holds(v, AnyText) && Looks(u, p) && SameValue(v, w) && SameValue(u, w)
      ensures Holds(v, SplitText)
      decreases v
    {
      if !fetched {
        SeenAndMeantIsSplit(text, v, u, w);
      } else if Container(v) {
        var cs, ds, es := ChildrenOf(v), ChildrenOf(u), ChildrenOf(w);
        forall i: nat | i < |cs|
          ensures children[i].IsNode(cs[i], SplitText)
        {
          SameAt(cs, es, i);
          SameAt(ds, es, i);
          assert children[i].IsNode(cs[i], AnyText) && children[i].IsSeenAs(ds[i], p + [i]);
          children[i].SeenAndMeant(cs[i].value, ds[i].value, es[i].value, p + [i]);
        }
      }
    }

    /** IsEqualTo, which compares what is seen, gives the right answer against a tree m without malformed containers if
        and only if this tree has none, or m is neither the node nor what is seen of it. */
    lemma IsRightIff(n: Node, u: Node, m: Node, p: Path)
      requires IsNode(n, AnyText) && IsSeenAs(u, p)
      ensures Same(u, m) == Same(n, m) <==> IsNode(n, SplitText) || (!Same(n, m) && !Same(u, m))
    {
      if IsNode(n, SplitText) {
        SplitLooks(n.value, p);
        LooksOne(n.value, u.value, p, p);
      } else if Same(n, m) && Same(u, m) {
        SeenAndMeant(n.value, u.value, m.value, p);
      }
    }

    /** Before fetching, the kind is the one that is seen. */
    lemma KindIsSeen(u: Value, p: Path)
      requires Looks(u, p)
      ensures kind == KindOf(u)
    {
    }

    /** IsEqualTo. It compares what is seen of the two nodes: the kinds are compared before fetching and the children
        after it. */
    method IsEqualTo(val: LazyNode, ghost n: Node, ghost m: Node, ghost pool: set<LazyNode>,
                     ghost p: Path, ghost q: Path)
      returns (equal: bool, ghost grown: set<LazyNode>)
      requires this in pool && val in pool && Closed(pool) && IsSeenAs(n, p) && val.IsSeenAs(m, q) && Apart(p, q)
      modifies pool
      ensures equal == Same(n, m)
      ensures pool <= grown && fresh(grown - pool) && Closed(grown) && AllStand(pool)
      ensures LooksStay(pool, p, q)
      decreases n, 1
    {
      grown := pool;
      KindIsSeen(n.value, p);
      val.KindIsSeen(m.value, q);
      if this == val {
        LooksOne(n.value, m.value, p, q);
        SameAsItself(n.value);
        return true, grown;
      }
      if kind != val.kind || name != val.name {
        return false, grown;
      }
      if kind == JsonNull {
        return true, grown;
      }
      grown := FetchBoth(val, n.value, m.value, pool, p, q);
      match kind
      case JsonString | JsonNumber =>
        return text == val.text, grown;
      case JsonBool =>
        return flag == val.flag, grown;
      case _ =>
        equal, grown := ChildrenAreEqual(val, n.value, m.value, grown, p, q);
    }

    lemma IsOpened(u: Value, p: Path)
      requires Looks(u, p) && fetched
      ensures Opened(u, p)
    {
      match u
      case Array(cs) => assert forall i: nat | i < |cs| :: children[i].IsSeenAs(cs[i], p + [i]);
      case Object(cs) => assert forall i: nat | i < |cs| :: children[i].IsSeenAs(cs[i], p + [i]);
      case _ =>
    }

    /** Fetching another node leaves what is seen. */
    twostate lemma StaysOpened(pool: set<LazyNode>, new u: Value, new p: Path, new q: Path)
      requires this in pool && old(Closed(pool)) && Untouched() && AllStand(pool) && LooksStay(pool, q, q)
      requires Apart(p, q)
      requires old(Opened(u, p))
      ensures Opened(u, p)
    {
      if Container(u) {
        forall i: nat | i < |children|
          ensures children[i].IsSeenAs(ChildrenOf(u)[i], p + [i])
        {
          BelowIsApart(p, q, i, 0);
          assert old(children[i].IsSeenAs(ChildrenOf(u)[i], p + [i]));
        }
      }
    }

    method FetchBoth(val: LazyNode, ghost u: Value, ghost w: Value, ghost pool: set<LazyNode>,
                     ghost p: Path, ghost q: Path)
      returns (ghost grown: set<LazyNode>)
      requires this in pool && val in pool && this != val && Closed(pool) && Apart(p, q)
      requires Looks(u, p) && val.Looks(w, q)
      modifies this, val
      ensures pool <= grown && fresh(grown - pool) && Closed(grown) && AllStand(pool)
      ensures Opened(u, p) && val.Opened(w, q) && LooksStay(pool, p, q)
    {
      grown := Fetch(pool);
      assert Opened(u, p) && val.Looks(w, q);
      label first:
      ghost var half := grown;
      grown := val.Fetch(grown);
      assert val.Opened(w, q) && old@first(Looks(u, p) || Opened(u, p));
      StaysOpened@first(half, u, p, q);
    }

    method ChildrenAreEqual(val: LazyNode, ghost v: Value, ghost w: Value, ghost pool: set<LazyNode>,
                            ghost p: Path, ghost q: Path)
      returns (equal: bool, ghost grown: set<LazyNode>)
      requires this in pool && val in pool && Closed(pool) && Opened(v, p) && val.Opened(w, q) && Apart(p, q)
      requires Container(v) && KindOf(v) == KindOf(w)
      modifies pool
      ensures equal == SameValue(v, w)
      ensures pool <= grown && fresh(grown - pool) && Closed(grown) && AllStand(pool)
      ensures LooksStay(pool, p, q)
      decreases v, 0
    {
      ghost var cs, ds := ChildrenOf(v), ChildrenOf(w);
      grown := pool;
      if |children| != |val.children| {
        return false, grown;
      }
      equal, grown := ListsAreEqual(children, val.children, cs, ds, pool, p, q);
    }

    /** The loop over the children. */
    static method ListsAreEqual(kids: seq<LazyNode>, others: seq<LazyNode>, ghost cs: seq<Node>, ghost ds: seq<Node>,
                                ghost pool: set<LazyNode>, ghost p: Path, ghost q: Path)
      returns (equal: bool, ghost grown: set<LazyNode>)
      requires Closed(pool) && |kids| == |others| && Apart(p, q)
      requires AreSeen(kids, cs, 0, pool, p) && AreSeen(others, ds, 0, pool, q)
      modifies pool
      ensures equal == SameList(cs, ds)
      ensures pool <= grown && fresh(grown - pool) && Closed(grown) && AllStand(pool)
      ensures LooksStay(pool, p, q)
      decreases cs, 0
    {
      grown := pool;
      assert cs[0..] == cs && ds[0..] == ds;
      for i := 0 to |kids|
        invariant pool <= grown && fresh(grown - pool) && Closed(grown) && AllStand(pool)
        invariant LooksStay(pool, p, q)
        invariant AreSeen(kids, cs, i, pool, p) && AreSeen(others, ds, i, pool, q)
        invariant SameList(cs, ds) == SameList(cs[i..], ds[i..])
      {
        SameListAt(cs, ds, i);
        BelowIsApart(p, q, i, i);
        var same;
        label before:
        ghost var here := grown;
        same, grown := kids[i].IsEqualTo(others[i], cs[i], ds[i], grown, p + [i], q + [i]);
        RestStays@before(kids, cs, i, here, p, q);
        RestStays@before(others, ds, i, here, q, p);
        if !same {
          return false, grown;
        }
      }
      return true, grown;
    }

    /** Comparing child number i leaves what is seen of the others, and of everything that is apart from both lists. */
    static twostate lemma RestStays(new kids: seq<LazyNode>, new cs: seq<Node>, new i: nat, pool: set<LazyNode>,
                                    new p: Path, new q: Path)
      requires AllStand(pool) && Apart(p, q) && (LooksStay(pool, p + [i], q + [i]) || LooksStay(pool, q + [i], p + [i]))
      requires |kids| == |cs|
      requires forall k: nat | i < k < |cs| :: kids[k] in pool && old(kids[k].IsSeenAs(cs[k], p + [k]))
      ensures AreSeen(kids, cs, i + 1, pool, p) && LooksStay(pool, p, q)
    {
      forall k: nat | i < k < |cs|
        ensures kids[k].IsSeenAs(cs[k], p + [k])
      {
        BelowIsApart(p, q, k, i);
        assert old(kids[k].IsSeenAs(cs[k], p + [k]));
      }
      forall y, u: Value, r | y in pool && Apart(r, p) && Apart(r, q) && old(y.Looks(u, r))
        ensures y.Looks(u, r)
      {
        BelowIsApart(r, p, 0, i);
        BelowIsApart(r, q, 0, i);
      }
    }

    /** The children from number i on are seen as cs. */
    static ghost predicate AreSeen(kids: seq<LazyNode>, cs: seq<Node>, i: nat, pool: set<LazyNode>, p: Path)
      reads *
    {
      |kids| == |cs| && forall k: nat | i <= k < |cs| :: kids[k] in pool && kids[k].IsSeenAs(cs[k], p + [k])
    }

    /** FetchNode and FetchArray. */
    method FetchContainer() returns (ghost made: set<LazyNode>)
      requires !fetched && kind in {JsonArray, JsonObject}
      modifies this
      ensures fetched && name == old(name) && nameEncoded == old(nameEncoded) && kind in {old(kind), JsonNull}
      ensures fresh(made) && forall c | c in made :: c.children == []
      ensures forall c | c in children :: c in made || c in old(children)
      ensures Keeps()
      ensures var raw := old(text);
        Unsettled(raw) && old(kind) == Pending(raw) && !Split(raw).Undefined? ==> HasMade(Split(raw).items, old(place))
    {
      var open, close := if kind == JsonArray then '[' else '{', if kind == JsonArray then ']' else '}';
      made := {};
      if text == "" || text[0] != open || text[|text| - 1] != close {
        Nullify();
        return;
      }
      var pieces;
      if kind == JsonObject {
        pieces := DoNode(text);
      } else {
        pieces := DoArray(text);
      }
      if pieces.Undefined? {
        fetched := true;
        return;
      }
      var kids;
      kids, made := NewNodes(pieces.items, place);
      ghost var raw := text;
      if pieces.Nullified? {
        kind := JsonNull;
      }
      text, fetched, children := "", true, kids;
      forall v: Value, texts: Texts | old(Holds(v, texts))
        ensures Holds(v, texts)
      {
        if pieces.Children? {
          ChildrenHold(raw, v, texts, pieces.items);
        }
      }
    }

    /** The children are new nodes in their places. */
    ghost predicate HasMade(items: seq<(string, string)>, base: Path)
      reads *
    {
      && |children| == |items|
      && forall i: nat | i < |items| :: children[i].Parsed(items[i].0, items[i].1) && children[i].place == base + [i]
    }

    /** The new children stand for the children of the value. */
    lemma ChildrenHold(raw: string, v: Value, texts: Texts, items: seq<(string, string)>)
      requires ParseValue(raw) == Some(v) && Fits(texts, raw, v) && Unsettled(raw)
      requires kind == Pending(raw) && kind in {JsonArray, JsonObject} && fetched
      requires Children(items) == Split(raw)
      requires |children| == |items| && forall i | 0 <= i < |items| :: children[i].Parsed(items[i].0, items[i].1)
      ensures Holds(v, texts)
    {
      SplitIsShorter(raw);
      var cs := ChildrenOf(v);
      ParseListAt(items, |raw|, 0);
      forall i | 0 <= i < |cs|
        ensures children[i].IsNode(cs[i], texts)
      {
        ParseListAt(items, |raw|, i);
        PieceFits(raw, v, texts, items, i);
        children[i].ParsedIsNode(items[i].0, items[i].1);
      }
    }

    /** The new children are seen as the children of what was seen of the text. */
    lemma ChildrenAreSeen(raw: string, u: Value, p: Path)
      requires Unsettled(raw) && SeenValue(raw) == Some(u) && Container(u) && fetched
      requires kind in {Pending(raw), JsonNull} && !Split(raw).Undefined? && HasMade(Split(raw).items, p)
      ensures Opened(u, p)
    {
      SplitIsShorter(raw);
      var items, cs := Split(raw).items, ChildrenOf(u);
      SeenListAt(items, |raw|, 0);
      forall i: nat | i < |cs|
        ensures children[i].IsSeenAs(cs[i], p + [i])
      {
        SeenListAt(items, |raw|, i);
        children[i].ParsedIsSeen(items[i].0, items[i].1, p + [i]);
      }
    }

    function Fields(): (Kind, string, bool, string, bool, bool, bool, seq<LazyNode>)
      reads this
    {
      (kind, name, nameEncoded, text, textEncoded, flag, fetched, children)
    }

    twostate predicate Untouched()
      reads this
    {
      Fields() == old(Fields()) && place == old(place)
    }

    twostate predicate NameStays()
      reads this
    {
      (name, nameEncoded) == old((name, nameEncoded))
    }

    /** Once fetched the node does not change. */
    twostate predicate Stays()
      reads this
    {
      old(fetched) ==> Untouched()
    }

    /** Fetch changes no other node, but every node that contains this one stands for what it stood for. What is seen
        of it stays the same too, unless the text has a malformed container. */
    method Fetch(ghost pool: set<LazyNode>) returns (ghost grown: set<LazyNode>)
      requires this in pool && Closed(pool)
      modifies this
      ensures fetched && pool <= grown && fresh(grown - pool) && Closed(grown)
      ensures AllStand(pool)
      ensures forall u, p | old(Looks(u, p)) :: Opened(u, p) && LooksStay(pool, p, p)
    {
      grown := pool;
      if fetched {
        OthersStand(pool, this);
        return;
      }
      match kind {
        case JsonString =>
          FetchString();
        case JsonObject | JsonArray =>
          var made := FetchContainer();
          grown := pool + made;
        case JsonNumber =>
          fetched := true;
        case _ =>
          Nullify();
      }
      OthersStand(pool, this);
      forall u, p | old(Looks(u, p))
        ensures Opened(u, p) && LooksStay(pool, p, p)
      {
        SeenAfterFetch(u, p);
        OthersLook(pool, this, p);
      }
    }

    /** What is seen of a node that has been fetched now. */
    twostate lemma SeenAfterFetch(new u: Value, new p: Path)
      requires old(!fetched && Looks(u, p)) && fetched && Keeps()
      requires old(kind in {JsonArray, JsonObject} && !Split(text).Undefined?) ==>
                 kind in {old(kind), JsonNull} && HasMade(Split(old(text)).items, old(place))
      ensures Opened(u, p)
      ensures forall w, r | Apart(r, p) && old(Looks(w, r)) :: Looks(w, r)
    {
      var raw := old(text);
      if WellSplit(raw) {
        SplitIsSeen(raw);
        assert old(Holds(u, SplitText));
        forall r: Path
          ensures Looks(u, r)
        {
          SplitLooks(u, r);
        }
        IsOpened(u, p);
      } else {
        ChildrenAreSeen(raw, u, p);
      }
    }

    static method NewNodes(items: seq<(string, string)>, ghost base: Path)
      returns (kids: seq<LazyNode>, ghost made: set<LazyNode>)
      ensures |kids| == |items| && fresh(made)
      ensures forall i | 0 <= i < |kids| :: kids[i] in made
      ensures forall c | c in made :: c.children == []
      ensures forall i: nat | i < |kids| :: kids[i].Parsed(items[i].0, items[i].1) && kids[i].place == base + [i]
    {
      kids, made := [], {};
      for i := 0 to |items|
        invariant |kids| == i && fresh(made)
        invariant forall k | 0 <= k < i :: kids[k] in made
        invariant forall c | c in made :: c.children == []
        invariant forall k: nat | k < i :: kids[k].Parsed(items[k].0, items[k].1) && kids[k].place == base + [k]
      {
        var kid := new LazyNode(items[i].0, items[i].1, base + [i]);
        kids, made := kids + [kid], made + {kid};
      }
    }
  }

  /** JSONWorker::parse. Nothing but the root is made. The global is set by a rewritten quote and never cleared. */
  method ParseLazily(json: string, used: bool, ghost place: Path) returns (root: Option<LazyNode>, used': bool)
    ensures Parse(json).Root? && SeenValue(Outside(json, true).text).Some? ==>
              root.Some? && root.value.IsSeenAs(Node("", false, SeenValue(Outside(json, true).text).value), place)
    ensures used' == (used || Rewrites(json))
    ensures root.Some? ==> fresh(root.value) && root.value.children == []
    ensures Parse(json).Root? ==> root.Some? && root.value.IsNode(Parse(json).node, AnyText)
    ensures Parse(json).Rejected? ==> root.None?
    ensures Parse(json).Root? && WellSplit(Outside(json, true).text) ==> root.value.IsNode(Parse(json).node, SplitText)
    ensures forall n: Node, lay: Layout | json == Render(n, lay, true, false) && Document(n) ::
              && root.Some? && root.value.IsNode(Reparse(n, true), FromWriter)
              && (used' || NoneRewritten(Reparse(n, true).value))
  {
    var s;
    s, used' := RemoveWhiteSpace(json, true, used);
    forall n: Node, lay: Layout | json == Render(n, lay, true, false) && Document(n)
      ensures Parse(json) == Root(Reparse(n, true)) && s.Text? && Printed(s.text, Reparse(n, true).value)
      ensures used' || NoneRewritten(Reparse(n, true).value)
    {
      PrintedRoot(n, lay);
    }
    if !s.Text? || s.text == "" {
      return None, used';
    }
    var last := s.text[|s.text| - 1];
    if (s.text[0] == '[' && last == ']') || (s.text[0] == '{' && last == '}') {
      var node := new LazyNode.Root(s.text, place);
      return Some(node), used';
    }
    return None, used';
  }

  predicate Document(n: Node) {
    Printable(n, true) && Container(n.value)
  }

  /** Parsing a printed document gives a node with printed text, and sets the global exactly when a quote of the
      document is escaped. */
  lemma PrintedRoot(n: Node, lay: Layout)
    requires Document(n)
    ensures Parse(Render(n, lay, true, false)) == Root(Reparse(n, true))
    ensures var s := Outside(Render(n, lay, true, false), true);
      s.Text? && Printed(s.text, Reparse(n, true).value)
    ensures Rewrites(Render(n, lay, true, false)) <==> !NoneRewritten(n.value)
    ensures NoneRewritten(n.value) <==> NoneRewritten(Reparse(n, true).value)
  {
    ParsePrinted(n, lay);
    StripPrinted(n, lay, true);
    StripPrinted(n, lay, false);
    RewritesIff(Render(n, lay, true, false));
    NoneRewrittenIff(n.value);
    NoneRewrittenIff(Reparse(n, true).value);
    Unnamed(n, true);
    Unnamed(n, false);
    ReprintValue(n.value, true);
    ReprintValue(n.value, false);
  }

  lemma Unnamed(n: Node, mark: bool)
    ensures Render(n, Compact, true, mark) == RenderValue(n.value, Compact, mark)
  {
  }

  lemma StripPrinted(n: Node, lay: Layout, mark: bool)
    requires Printable(n, true)
    ensures Outside(Render(n, lay, true, false), mark) == Text(Render(n, Compact, true, mark))
  {
    var text := Render(n, Compact, true, mark);
    StripNode(n, lay, true, "", mark);
    assert Render(n, lay, true, false) + "" == Render(n, lay, true, false);
    assert text + "" == text;
  }

  /** A document that is parsed and written back without being fetched comes back if and only if it holds no raw
      byte 1, or no quote was rewritten so far: neither one of its own nor one of an earlier document. */
  lemma DumpedDocumentIff(n: Node, lay: Layout, used: bool)
    requires Document(n)
    ensures var s := Outside(Render(n, lay, true, false), true);
      var used' := used || Rewrites(Render(n, lay, true, false));
      s.Text? &&
      (Dump(s.text, used') == RenderValue(n.value, Compact, false) <==>
       '\U{1}' !in RenderValue(n.value, Compact, false) || (!used && NoneRewritten(n.value)))
  {
    PrintedRoot(n, lay);
    StripPrinted(n, lay, true);
    Unnamed(n, true);
    DumpIff(n.value, used || Rewrites(Render(n, lay, true, false)));
  }

  /** A document that sets the global itself: its escaped quote is rewritten, and its raw byte 1 is dumped as a
      quote, which makes the dumped text a different one. */
  lemma ByteOneIsMistaken()
    ensures var v := Array([Node("", false, Str("\"", true)), Node("", false, Str("\U{1}", false))]);
      && PrintableValue(v) && !NoneRewritten(v)
      && RenderValue(v, Compact, false) == "[\"\\\"\",\"\U{1}\"]"
      && Dump(RenderValue(v, Compact, true), true) == "[\"\\\"\",\"\"\"]"
  {
    var a, b := Node("", false, Str("\"", true)), Node("", false, Str("\U{1}", false));
    TwoElements(a, b, true);
    TwoElements(a, b, false);
    QuoteText(true);
    QuoteText(false);
    ByteText();
    NoneRewrittenIff(Array([a, b]));
    MistakenTexts(RenderValue(Array([a, b]), Compact, true), RenderValue(Array([a, b]), Compact, false));
    TwoPrintable(a, b);
  }

  lemma MistakenTexts(marked: string, plain: string)
    requires marked == "[" + ("\"\\" + ['\U{1}'] + "\"") + "," + "\"\U{1}\"" + "]"
    requires plain == "[" + ("\"\\" + ['\"'] + "\"") + "," + "\"\U{1}\"" + "]"
    ensures marked != plain && plain == "[\"\\\"\",\"\U{1}\"]" && Dump(marked, true) == "[\"\\\"\",\"\"\"]"
  {
    ElementTexts('\U{1}');
    ElementTexts('\"');
    assert marked[3] != plain[3];
    MistakenDump(marked, "[\"\\\"\",\"\"\"]");
  }

  lemma ElementTexts(c: char)
    ensures "[" + ("\"\\" + [c] + "\"") + "," + "\"\U{1}\"" + "]" ==
            ['[', '\"', '\\', c, '\"', ',', '\"', '\U{1}', '\"', ']']
  {
  }

  lemma MistakenDump(s: string, t: string)
    requires |s| == |t| && forall i | 0 <= i < |s| :: t[i] == if s[i] == '\U{1}' then '\"' else s[i]
    ensures Dump(s, true) == t
  {
  }

  lemma TwoPrintable(a: Node, b: Node)
    requires Printable(a, true) && Printable(b, true)
    ensures PrintableValue(Array([a, b]))
  {
    assert [a, b][1..] == [b] && [b][1..] == [];
    assert AllPrintable([b], true) && AllPrintable([a, b], true);
  }

  lemma ByteText()
    ensures RenderValue(Str("\U{1}", false), Compact, true) == "\"\U{1}\""
    ensures "\"\U{1}\"" == RenderValue(Str("\U{1}", false), Compact, false)
  {
    assert Mark("\U{1}", true) == "\U{1}" == Mark("\U{1}", false);
  }

  lemma QuoteText(mark: bool)
    ensures RenderValue(Str("\"", true), Compact, mark) == "\"\\" + [Marked('\"', mark)] + "\""
  {
    assert Escape("\"") == "\\\"" + Escape("");
    assert Mark("\\\"", mark) == ['\\', Marked('\"', mark)] + Mark("", mark);
  }

  lemma TwoElements(a: Node, b: Node, mark: bool)
    ensures RenderValue(Array([a, b]), Compact, mark) ==
            "[" + RenderValue(a.value, Compact, mark) + "," + RenderValue(b.value, Compact, mark) + "]"
  {
    Unnamed(a, mark);
    Unnamed(b, mark);
    var cs, x, y := [a, b], RenderValue(a.value, Compact, mark), RenderValue(b.value, Compact, mark);
    assert cs[1..] == [b];
    FirstAndRest(cs, true, mark);
    FirstAndRest([b], true, mark);
    var list := RenderList(cs, Compact, true, mark);
    assert RenderChildren(cs, Compact, true, mark) == list + "" == list;
    Glued(x, y);
  }

  lemma Glued(x: string, y: string)
    ensures ['['] + (x + ([','] + y)) + [']'] == "[" + x + "," + y + "]"
  {
  }
}
