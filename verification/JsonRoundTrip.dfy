/**
 Parsing undoes printing: the scanners of the parser step over every printed node as a whole, so the
 splitters cut a printed container exactly into its printed children.
 */
module JsonRoundTrip {
  import opened Wrappers
  import opened JsonText
  import opened JsonNode
  import opened JsonWriter
  import opened JsonStripper
  import opened JsonParser

  // ------------------------------------------------------------ marked bodies

  lemma {:induction false} MarkChars(b: string, c: char)
    requires c != '\U{1}' && c !in b
    ensures c !in Mark(b, true)
  {
    if b != [] {
      if b[0] == '\\' && |b| > 1 {
        MarkChars(b[2..], c);
      } else {
        MarkChars(b[1..], c);
      }
    }
  }

  /** What the scanners may rely on inside a quotation. */
  lemma MarkedBodyClean(s: string, encoded: bool)
    requires GoodText(s, encoded)
    ensures '\"' !in Mark(Body(s, encoded), true) && '\0' !in Mark(Body(s, encoded), true)
  {
    GoodBody(s, encoded);
    MarkedHasNoQuote(Body(s, encoded));
    if encoded {
      EscapeIsClean(s);
    }
    MarkChars(Body(s, encoded), '\0');
  }

  lemma {:induction false} MarkOfPlain(b: string)
    requires '\\' !in b
    ensures Mark(b, true) == b
  {
    if b != [] {
      MarkOfPlain(b[1..]);
    }
  }

  /** The stored text comes back from its marked body. */
  lemma UnescapeBody(s: string, encoded: bool)
    requires GoodText(s, encoded)
    ensures Unescape(Mark(Body(s, encoded), true)) == Text(s)
  {
    if encoded {
      UnescapeUndoesEscape(s, true);
    } else {
      MarkOfPlain(s);
      UnescapeWithoutBackslash(s);
    }
  }

  lemma {:induction false} UnescapeWithoutBackslash(s: string)
    requires '\\' !in s
    ensures Unescape(s) == Text(s)
  {
    if s != [] {
      UnescapeWithoutBackslash(s[1..]);
    }
  }

  // ------------------------------------------------------------ stepping over text

  predicate Plain(c: char) {
    c !in {'\"', '[', ']', '{', '}', ',', ':', '\0'}
  }

  lemma {:induction false} SkipQuoteBody(b: string, rest: string)
    requires '\"' !in b && '\0' !in b
    ensures SkipQuote(b + (['\"'] + rest)) == Some(rest)
  {
    var s := b + (['\"'] + rest);
    if b == [] {
      assert s[1..] == rest;
    } else {
      assert s[1..] == b[1..] + (['\"'] + rest);
      SkipQuoteBody(b[1..], rest);
    }
  }

  lemma {:induction false} SkipPlain(l: char, r: char, s: string, rest: string, depth: nat)
    requires depth > 0 && forall i | 0 <= i < |s| :: s[i] !in {l, r, '\"', '\0'}
    ensures SkipBracket(l, r, s + rest, depth) == SkipBracket(l, r, rest, depth)
  {
    if s == [] {
      assert s + rest == rest;
    } else {
      assert (s + rest)[0] == s[0] && (s + rest)[1..] == s[1..] + rest;
      SkipPlain(l, r, s[1..], rest, depth);
    }
  }

  lemma SkipString(l: char, r: char, b: string, rest: string, depth: nat)
    requires depth > 0 && '\"' !in {l, r}
    requires '\"' !in b && '\0' !in b
    ensures SkipBracket(l, r, ['\"'] + b + ['\"'] + rest, depth) == SkipBracket(l, r, rest, depth)
  {
    Regroup(['\"'], b, ['\"'], rest);
    var t := b + (['\"'] + rest);
    assert (['\"'] + t)[1..] == t;
    SkipQuoteBody(b, rest);
  }

  lemma {:induction false} FindPlain(ch: char, s: string, rest: string)
    requires forall i | 0 <= i < |s| :: Plain(s[i]) && s[i] != ch
    ensures Find(ch, s + rest) == Find(ch, rest)
  {
    if s == [] {
      assert s + rest == rest;
    } else {
      assert (s + rest)[0] == s[0] && (s + rest)[1..] == s[1..] + rest;
      FindPlain(ch, s[1..], rest);
    }
  }

  lemma FindString(ch: char, b: string, rest: string)
    requires ch != '\"' && '\"' !in b && '\0' !in b
    ensures Find(ch, ['\"'] + b + ['\"'] + rest) == Find(ch, rest)
  {
    Regroup(['\"'], b, ['\"'], rest);
    var t := b + (['\"'] + rest);
    assert (['\"'] + t)[1..] == t;
    SkipQuoteBody(b, rest);
  }

  // ------------------------------------------------------------ stepping over nodes

  predicate Brackets(l: char, r: char) {
    (l, r) == ('[', ']') || (l, r) == ('{', '}')
  }

  /** Bracket counting is undisturbed by a printed node, whatever kind of bracket is counted. */
  lemma {:induction false} SkipNode(l: char, r: char, n: Node, arrayChild: bool, rest: string, depth: nat)
    requires Brackets(l, r) && depth > 0 && Printable(n, arrayChild)
    ensures SkipBracket(l, r, Render(n, Compact, arrayChild, true) + rest, depth) == SkipBracket(l, r, rest, depth)
    decreases n, 1
  {
    var name, val := NameText(n, Compact, arrayChild, true), RenderValue(n.value, Compact, true);
    Associative(name, val, rest);
    SkipValue(l, r, n.value, rest, depth);
    if !arrayChild {
      var b := Mark(Body(n.name, n.nameEncoded), true);
      MarkedBodyClean(n.name, n.nameEncoded);
      NameRegroup(n, val + rest);
      SkipString(l, r, b, ":" + (val + rest), depth);
      SkipPlain(l, r, ":", val + rest, depth);
    } else {
      assert name + (val + rest) == val + rest;
    }
  }

  lemma NameRegroup(n: Node, rest: string)
    ensures NameText(n, Compact, false, true) + rest
         == ['\"'] + Mark(Body(n.name, n.nameEncoded), true) + ['\"'] + (":" + rest)
  {
  }

  lemma {:induction false} SkipValue(l: char, r: char, v: Value, rest: string, depth: nat)
    requires Brackets(l, r) && depth > 0 && PrintableValue(v)
    ensures SkipBracket(l, r, RenderValue(v, Compact, true) + rest, depth) == SkipBracket(l, r, rest, depth)
    decreases v, 0
  {
    match v
    case Null(t) => SkipPlain(l, r, t, rest, depth);
    case Bool(b) => SkipPlain(l, r, RenderValue(v, Compact, true), rest, depth);
    case Number(t) =>
      NumeralChars(t);
      SkipPlain(l, r, t, rest, depth);
    case Str(s, e) =>
      MarkedBodyClean(s, e);
      SkipString(l, r, Mark(Body(s, e), true), rest, depth);
    case Array(cs) => SkipContainer(l, r, '[', ']', cs, true, rest, depth);
    case Object(cs) => SkipContainer(l, r, '{', '}', cs, false, rest, depth);
  }

  lemma {:induction false} SkipContainer(l: char, r: char, open: char, close: char, cs: seq<Node>, inArray: bool,
                                         rest: string, depth: nat)
    requires Brackets(l, r) && Brackets(open, close) && depth > 0 && AllPrintable(cs, inArray)
    ensures SkipBracket(l, r, [open] + RenderChildren(cs, Compact, inArray, true) + [close] + rest, depth)
         == SkipBracket(l, r, rest, depth)
    decreases cs, 2
  {
    var inner := RenderChildren(cs, Compact, inArray, true);
    Regroup([open], inner, [close], rest);
    var t := inner + ([close] + rest);
    assert ([open] + t)[1..] == t;
    assert ([close] + rest)[1..] == rest;
    if open == l {
      SkipChildren(l, r, cs, inArray, [close] + rest, depth + 1);
    } else {
      SkipPlain(l, r, [open], t, depth);
      SkipChildren(l, r, cs, inArray, [close] + rest, depth);
      SkipPlain(l, r, [close], rest, depth);
    }
  }

  lemma {:induction false} SkipChildren(l: char, r: char, cs: seq<Node>, inArray: bool, rest: string, depth: nat)
    requires Brackets(l, r) && depth > 0 && AllPrintable(cs, inArray)
    ensures SkipBracket(l, r, RenderChildren(cs, Compact, inArray, true) + rest, depth) ==
            SkipBracket(l, r, rest, depth)
    decreases cs, 1
  {
    CompactChildren(cs, inArray);
    SkipList(l, r, cs, inArray, rest, depth);
  }

  lemma CompactChildren(cs: seq<Node>, inArray: bool)
    ensures RenderChildren(cs, Compact, inArray, true) == RenderList(cs, Compact, inArray, true)
  {
    assert RenderList(cs, Compact, inArray, true) + "" == RenderList(cs, Compact, inArray, true);
  }

  /** The compact text of a list: its first node, and after a comma the rest. */
  lemma CompactList(cs: seq<Node>, inArray: bool, rest: string)
    requires cs != []
    ensures RenderList(cs, Compact, inArray, true) + rest
         == Render(cs[0], Compact, inArray, true)
            + (if |cs| > 1 then [','] + (RenderList(cs[1..], Compact, inArray, true) + rest) else rest)
  {
    var first := Render(cs[0], Compact, inArray, true);
    assert "" + first == first;
    if |cs| > 1 {
      Regroup(first, [','], RenderList(cs[1..], Compact, inArray, true), rest);
      Associative(first, [','], RenderList(cs[1..], Compact, inArray, true));
    } else {
      assert first + "" == first;
    }
  }

  lemma {:induction false} SkipList(l: char, r: char, cs: seq<Node>, inArray: bool, rest: string, depth: nat)
    requires Brackets(l, r) && depth > 0 && AllPrintable(cs, inArray)
    ensures SkipBracket(l, r, RenderList(cs, Compact, inArray, true) + rest, depth) == SkipBracket(l, r, rest, depth)
    decreases cs, 0
  {
    if cs == [] {
      assert "" + rest == rest;
    } else {
      CompactList(cs, inArray, rest);
      if |cs| > 1 {
        var tail := RenderList(cs[1..], Compact, inArray, true) + rest;
        SkipNode(l, r, cs[0], inArray, [','] + tail, depth);
        SkipPlain(l, r, [','], tail, depth);
        SkipList(l, r, cs[1..], inArray, rest, depth);
      } else {
        SkipNode(l, r, cs[0], inArray, rest, depth);
      }
    }
  }

  /** A search for a separator or a closing bracket steps over a printed value. */
  lemma FindPastValue(ch: char, v: Value, rest: string)
    requires ch in {',', ':', ']', '}'} && PrintableValue(v)
    ensures Find(ch, RenderValue(v, Compact, true) + rest) == Find(ch, rest)
  {
    match v
    case Null(t) => FindPlain(ch, t, rest);
    case Bool(b) => FindPlain(ch, RenderValue(v, Compact, true), rest);
    case Number(t) =>
      NumeralChars(t);
      FindPlain(ch, t, rest);
    case Str(s, e) =>
      MarkedBodyClean(s, e);
      FindString(ch, Mark(Body(s, e), true), rest);
    case Array(cs) => FindPastContainer(ch, '[', ']', cs, true, rest);
    case Object(cs) => FindPastContainer(ch, '{', '}', cs, false, rest);
  }

  lemma FindPastContainer(ch: char, open: char, close: char, cs: seq<Node>, inArray: bool, rest: string)
    requires ch in {',', ':', ']', '}'} && Brackets(open, close) && AllPrintable(cs, inArray)
    ensures Find(ch, [open] + RenderChildren(cs, Compact, inArray, true) + [close] + rest) == Find(ch, rest)
  {
    var inner := RenderChildren(cs, Compact, inArray, true);
    Regroup([open], inner, [close], rest);
    var t := inner + ([close] + rest);
    assert ([open] + t)[1..] == t;
    assert ([close] + rest)[1..] == rest;
    SkipChildren(open, close, cs, inArray, [close] + rest, 1);
    assert SkipBracket(open, close, [close] + rest, 1) == SkipBracket(open, close, rest, 0) == Some(rest);
  }

  // ------------------------------------------------------------ no NUL anywhere

  lemma {:induction false} NoNul(v: Value)
    requires PrintableValue(v)
    ensures '\0' !in RenderValue(v, Compact, true)
    decreases v, 0
  {
    match v
    case Null(t) =>
    case Bool(b) =>
    case Number(t) =>
    case Str(s, e) => MarkedBodyClean(s, e);
    case Array(cs) =>
      CompactChildren(cs, true);
      NoNulList(cs, true);
    case Object(cs) =>
      CompactChildren(cs, false);
      NoNulList(cs, false);
  }

  lemma {:induction false} NoNulList(cs: seq<Node>, inArray: bool)
    requires AllPrintable(cs, inArray)
    ensures '\0' !in RenderList(cs, Compact, inArray, true)
    decreases cs, 0
  {
    if cs != [] {
      NoNul(cs[0].value);
      MarkedBodyClean(cs[0].name, cs[0].nameEncoded);
      assert '\0' !in NameText(cs[0], Compact, inArray, true);
      NoNulList(cs[1..], inArray);
    }
  }

  lemma {:induction false} CStringWhole(s: string)
    requires '\0' !in s
    ensures CString(s) == s
  {
    if s != [] {
      CStringWhole(s[1..]);
    }
  }

  // ------------------------------------------------------------ splitting printed containers

  /** The raw text of a node's name and value, as the splitters should deliver them. */
  function Piece(n: Node, inArray: bool): (string, string) {
    (if inArray then "" else Mark(Body(n.name, n.nameEncoded), true), RenderValue(n.value, Compact, true))
  }

  function PieceList(cs: seq<Node>, inArray: bool): seq<(string, string)> {
    if cs == [] then [] else [Piece(cs[0], inArray)] + PieceList(cs[1..], inArray)
  }

  lemma FirstChar(v: Value)
    requires PrintableValue(v)
    ensures var t := RenderValue(v, Compact, true);
      (v == Null("") || t != []) && (t != [] ==> t[0] !in {'#', '\0'})
  {
    match v
    case Number(t) => NumeralChars(t);
    case _ =>
  }

  /** The text of an unnamed node is the text of its value. */
  lemma ElementText(n: Node)
    ensures Render(n, Compact, true, true) == RenderValue(n.value, Compact, true)
  {
  }

  lemma ElementOfValue(v: Value, rest: Pieces)
    requires PrintableValue(v)
    ensures Element(RenderValue(v, Compact, true), rest) == Cons(("", RenderValue(v, Compact, true)), rest)
  {
    var t := RenderValue(v, Compact, true);
    FindPastValue(':', v, "");
    assert t + "" == t;
    FirstChar(v);
    NoNul(v);
    CStringWhole(t);
  }

  lemma {:induction false} SplitElements(cs: seq<Node>)
    requires cs != [] && AllPrintable(cs, true)
    ensures ArrayItems(RenderList(cs, Compact, true, true) + [']']) == Children(PieceList(cs, true))
    decreases cs
  {
    var t := RenderValue(cs[0].value, Compact, true);
    var s := RenderList(cs, Compact, true, true) + [']'];
    ElementText(cs[0]);
    CompactList(cs, true, [']']);
    if |cs| > 1 {
      var tail := RenderList(cs[1..], Compact, true, true) + [']'];
      FindPastValue(',', cs[0].value, [','] + tail);
      assert ([','] + tail)[1..] == tail;
      assert s[..|s| - |[','] + tail|] == t;
      SplitElements(cs[1..]);
      ElementOfValue(cs[0].value, ArrayItems(tail));
    } else {
      FindPastValue(',', cs[0].value, [']']);
      assert s[..|s| - 1] == t;
      ElementOfValue(cs[0].value, Children([]));
      assert cs[1..] == [];
    }
  }

  /** The text of a member: quote, body, quote, colon, value. */
  lemma MemberText(n: Node, rest: string)
    ensures Render(n, Compact, false, true) + rest
         == ['\"'] + Mark(Body(n.name, n.nameEncoded), true)
            + ['\"'] + ([':'] + (RenderValue(n.value, Compact, true) + rest))
  {
    Associative(NameText(n, Compact, false, true), RenderValue(n.value, Compact, true), rest);
    NameRegroup(n, RenderValue(n.value, Compact, true) + rest);
  }

  /** ObjectItems on one member with body b and value text t, followed by a comma or by the brace. */
  lemma FirstMember(b: string, t: string, after: string)
    requires '\"' !in b && '\0' !in b
    requires Find(',', t + after) == Find(',', after)
    requires after == ['}'] || (after != [] && after[0] == ',')
    ensures ObjectItems(['\"'] + b + ['\"'] + ([':'] + (t + after)))
         == Cons((b, t), if after[0] == ',' then ObjectItems(after[1..]) else Children([]))
  {
    var r := [':'] + (t + after);
    var s := ['\"'] + b + ['\"'] + r;
    FindString(':', b, r);
    NameOf(b, r);
    ColonThen(t + after);
    ValueOf(t, after);
    var rest := if after[0] == ',' then ObjectItems(after[1..]) else Children([]);
    ObjectItemsUnfold(s, r, after);
    CStringWhole(b);
    assert Member(['\"'] + b, t, rest) == Cons((b, t), rest);
  }

  lemma ObjectItemsUnfold(s: string, r: string, after: string)
    requires Find(':', s) == Some(r) && |s| - |r| >= 2
    requires after == ['}'] || (after != [] && after[0] == ',')
    requires Find(',', r) == Find(',', after) && |r| > |after|
    ensures ObjectItems(s)
         == Member(s[..|s| - |r| - 1], r[1..|r| - |after|],
                   if after[0] == ',' then ObjectItems(after[1..]) else Children([]))
  {
    AfterColonUnfold(s[..|s| - |r| - 1], r, after);
  }

  lemma AfterColonUnfold(name: string, r: string, after: string)
    requires name != [] && |r| > |after| && r[0] == ':'
    requires after == ['}'] || (after != [] && after[0] == ',')
    requires Find(',', r) == Find(',', after)
    ensures after[0] == ',' ==> AfterColon(name, r) == Member(name, r[1..|r| - |after|], ObjectItems(after[1..]))
    ensures after[0] != ',' ==> AfterColon(name, r) == Member(name, r[1..|r| - |after|], Children([]))
  {
    FindAtEnd(after);
    if after[0] == ',' {
      MemberBefore(name, r, after);
    } else {
      LastMemberOf(name, r);
    }
  }

  lemma MemberBefore(name: string, r: string, after: string)
    requires name != [] && r != [] && r[0] == ':' && Find(',', r) == Some(after)
    ensures AfterColon(name, r) == Member(name, r[1..|r| - |after|], ObjectItems(after[1..]))
  {
  }

  lemma LastMemberOf(name: string, r: string)
    requires name != [] && |r| > 1 && r[0] == ':' && Find(',', r).None?
    ensures AfterColon(name, r) == Member(name, r[1..|r| - 1], Children([]))
  {
  }

  lemma FindAtEnd(after: string)
    requires after == ['}'] || (after != [] && after[0] == ',')
    ensures Find(',', after) == if after[0] == ',' then Some(after) else None
  {
  }

  lemma NameOf(b: string, r: string)
    ensures var s := ['\"'] + b + ['\"'] + r;
      |s| - |r| >= 2 && s[..|s| - |r| - 1] == ['\"'] + b && (['\"'] + b)[1..] == b
  {
  }

  lemma ValueOf(t: string, after: string)
    requires after != []
    ensures var r := [':'] + (t + after);
      r[1..|r| - |after|] == t
  {
  }

  lemma {:induction false} SplitMembers(cs: seq<Node>)
    requires cs != [] && AllPrintable(cs, false)
    ensures ObjectItems(RenderList(cs, Compact, false, true) + ['}']) == Children(PieceList(cs, false))
    decreases cs
  {
    var b := Mark(Body(cs[0].name, cs[0].nameEncoded), true);
    var t := RenderValue(cs[0].value, Compact, true);
    var tail := RenderList(cs[1..], Compact, false, true) + ['}'];
    var after := if |cs| > 1 then [','] + tail else ['}'];
    MarkedBodyClean(cs[0].name, cs[0].nameEncoded);
    CompactList(cs, false, ['}']);
    MemberText(cs[0], after);
    FindPastValue(',', cs[0].value, after);
    FirstMember(b, t, after);
    if |cs| > 1 {
      assert ([','] + tail)[1..] == tail;
      SplitMembers(cs[1..]);
    } else {
      assert cs[1..] == [];
    }
  }

  lemma ColonThen(t: string)
    ensures Find(',', [':'] + t) == Find(',', t)
  {
    assert ([':'] + t)[1..] == t;
  }

  // ------------------------------------------------------------ the tree that comes back

  /** An array whose only element prints as nothing. */
  predicate LoneBareNull(cs: seq<Node>) {
    |cs| == 1 && cs[0].value == Null("")
  }

  /** What parsing makes of a printed node: only the encoded flags change, except that an array whose only
      element is a null without text comes back empty. */
  function Reparse(n: Node, arrayChild: bool): Node
    decreases n, 1
  {
    Node(n.name, !arrayChild && '\\' in Mark(Body(n.name, n.nameEncoded), true), ReparseValue(n.value))
  }

  function ReparseValue(v: Value): Value
    decreases v, 0
  {
    match v
    case Null(_) => v
    case Bool(_) => v
    case Number(_) => v
    case Str(s, e) => Str(s, '\\' in Mark(Body(s, e), true))
    case Array(cs) => Array(if LoneBareNull(cs) then [] else ReparseList(cs, true))
    case Object(cs) => Object(ReparseList(cs, false))
  }

  function ReparseList(cs: seq<Node>, inArray: bool): seq<Node>
    decreases cs, 0
  {
    if cs == [] then [] else [Reparse(cs[0], inArray)] + ReparseList(cs[1..], inArray)
  }

  lemma {:induction false} ParsePrintedNode(n: Node, inArray: bool)
    requires Printable(n, inArray)
    ensures ParseNode(Piece(n, inArray).0, Piece(n, inArray).1) == Some(Reparse(n, inArray))
    decreases n, 1
  {
    if !inArray {
      UnescapeBody(n.name, n.nameEncoded);
    }
    ParsePrintedValue(n.value);
  }

  lemma {:induction false} ParsePrintedValue(v: Value)
    requires PrintableValue(v)
    ensures ParseValue(RenderValue(v, Compact, true)) == Some(ReparseValue(v))
    decreases v, 0
  {
    var text := RenderValue(v, Compact, true);
    match v
    case Null(t) =>
    case Bool(b) =>
    case Number(t) => NumeralChars(t);
    case Str(s, e) =>
      var b := Mark(Body(s, e), true);
      assert text[1..|text| - 1] == b;
      UnescapeBody(s, e);
    case Array(cs) =>
      SplitPrintedArray(cs);
      SplitIsShorter(text);
      ParsePrintedList(if LoneBareNull(cs) then [] else cs, true, |text|);
    case Object(cs) =>
      SplitPrintedObject(cs);
      SplitIsShorter(text);
      ParsePrintedList(cs, false, |text|);
  }

  lemma SplitPrintedArray(cs: seq<Node>)
    requires AllPrintable(cs, true)
    ensures var text := RenderValue(Array(cs), Compact, true);
      && SplitArray(text) == Children(PieceList(if LoneBareNull(cs) then [] else cs, true))
      && text[0] == '[' && text[|text| - 1] == ']'
  {
    var text := RenderValue(Array(cs), Compact, true);
    var inner := RenderList(cs, Compact, true, true);
    CompactChildren(cs, true);
    Wrapped('[', inner, ']');
    if cs != [] {
      FirstChar(cs[0].value);
      ElementText(cs[0]);
      CompactList(cs, true, "");
      assert inner + "" == inner;
      SplitElements(cs);
    }
  }

  lemma SplitPrintedObject(cs: seq<Node>)
    requires AllPrintable(cs, false)
    ensures var text := RenderValue(Object(cs), Compact, true);
      && SplitObject(text) == Children(PieceList(cs, false))
      && text[0] == '{' && text[|text| - 1] == '}'
  {
    var text := RenderValue(Object(cs), Compact, true);
    var inner := RenderList(cs, Compact, false, true);
    CompactChildren(cs, false);
    Wrapped('{', inner, '}');
    if cs == [] {
      assert SplitObject(text) == Children([]);
    } else {
      MembersAreLong(cs);
      SplitMembers(cs);
      assert SplitObject(text) == ObjectItems(text[1..]);
    }
  }

  lemma Wrapped(open: char, inner: string, close: char)
    ensures var text := [open] + inner + [close];
      text[1..] == inner + [close] && text[0] == open && text[|text| - 1] == close && |text| == |inner| + 2
  {
  }

  lemma MembersAreLong(cs: seq<Node>)
    requires cs != []
    ensures |RenderList(cs, Compact, false, true)| > 2
  {
    assert |NameText(cs[0], Compact, false, true)| > 2;
  }

  lemma {:induction false} ParsePrintedList(cs: seq<Node>, inArray: bool, bound: nat)
    requires AllPrintable(cs, inArray)
    requires forall i | 0 <= i < |PieceList(cs, inArray)| :: |PieceList(cs, inArray)[i].1| < bound
    ensures ParseList(PieceList(cs, inArray), bound) == Some(ReparseList(cs, inArray))
    decreases cs, 0
  {
    if cs != [] {
      var ps := PieceList(cs, inArray);
      assert ps[0] == Piece(cs[0], inArray) && ps[1..] == PieceList(cs[1..], inArray);
      ParsePrintedNode(cs[0], inArray);
      ParsePrintedList(cs[1..], inArray, bound);
    }
  }

  // ------------------------------------------------------------ main theorems

  predicate Container(v: Value) {
    v.Array? || v.Object?
  }

  lemma ParseStripped(json: string, s: string, v: Value)
    requires Outside(json, true) == Text(s) && ParseValue(s) == Some(v) && |s| >= 2
    requires (s[0] == '[' && s[|s| - 1] == ']') || (s[0] == '{' && s[|s| - 1] == '}')
    ensures Parse(json) == Root(Node("", false, v))
  {
  }

  /** Parsing what the writer prints, in any layout, gives the tree Reparse describes. */
  lemma ParsePrinted(n: Node, lay: Layout)
    requires Printable(n, true) && Container(n.value)
    ensures Parse(Render(n, lay, true, false)) == Root(Reparse(n, true))
  {
    var text := Render(n, Compact, true, true);
    StripNode(n, lay, true, "", true);
    assert Render(n, lay, true, false) + "" == Render(n, lay, true, false);
    assert text + "" == text;
    ElementText(n);
    ParsePrintedValue(n.value);
    ParseStripped(Render(n, lay, true, false), text, ReparseValue(n.value));
    if n.value.Array? {
      SplitPrintedArray(n.value.elements);
    } else {
      SplitPrintedObject(n.value.members);
    }
    assert Outside(Render(n, lay, true, false), true) == Text(text);
  }

  /** No array in the tree has a null without text as its only element. */
  predicate NoLoneBareNull(v: Value)
    decreases v, 0
  {
    match v
    case Array(cs) => !LoneBareNull(cs) && NoneInList(cs)
    case Object(cs) => NoneInList(cs)
    case _ => true
  }

  predicate NoneInList(cs: seq<Node>)
    decreases cs, 0
  {
    cs == [] || (NoLoneBareNull(cs[0].value) && NoneInList(cs[1..]))
  }

  lemma {:induction false} SameAfterReparse(v: Value)
    ensures SameValue(v, ReparseValue(v)) <==> NoLoneBareNull(v)
    decreases v, 0
  {
    match v
    case Array(cs) => SameListAfterReparse(cs, true);
    case Object(cs) => SameListAfterReparse(cs, false);
    case _ =>
  }

  lemma {:induction false} SameListAfterReparse(cs: seq<Node>, inArray: bool)
    ensures SameList(cs, ReparseList(cs, inArray)) <==> NoneInList(cs)
    decreases cs, 0
  {
    ReparseLength(cs, inArray);
    if cs != [] {
      var again := ReparseList(cs, inArray);
      assert again[0] == Reparse(cs[0], inArray) && again[1..] == ReparseList(cs[1..], inArray);
      SameAfterReparse(cs[0].value);
      SameListAfterReparse(cs[1..], inArray);
    }
  }

  lemma {:induction false} ReparseLength(cs: seq<Node>, inArray: bool)
    ensures |ReparseList(cs, inArray)| == |cs|
  {
    if cs != [] {
      ReparseLength(cs[1..], inArray);
    }
  }

  /** Parsing undoes printing, for every printable document and in every layout, exactly when no array of
      the document has a null without text as its only element. */
  lemma ParseUndoesPrint(n: Node, lay: Layout)
    requires Printable(n, true) && Container(n.value)
    ensures var r := Parse(Render(n, lay, true, false));
      r.Root? && (Same(n, r.node) <==> NoLoneBareNull(n.value))
  {
    ParsePrinted(n, lay);
    SameAfterReparse(n.value);
  }

  /** The smallest document that does not come back: an array holding a default-constructed null. */
  lemma LoneBareNullIsLost()
    ensures var n := Node("", false, Array([Node("", false, Null(""))]));
      && Printable(n, true)
      && Render(n, Compact, true, false) == "[]"
      && Parse("[]") == Root(Node("", false, Array([])))
      && !Same(n, Node("", false, Array([])))
  {
    var c := Node("", false, Null(""));
    var n := Node("", false, Array([c]));
    assert Printable(c, true);
    assert AllPrintable([c], true);
    assert RenderList([c], Compact, true, false) == "";
    ParsePrinted(n, Compact);
  }

  // The parsed tree is printable again, and prints to the same text.

  lemma {:induction false} MarkKeepsBackslash(b: string)
    requires '\\' in b
    ensures '\\' in Mark(b, true)
  {
    if b[0] != '\\' {
      MarkKeepsBackslash(b[1..]);
    }
  }

  lemma {:induction false} EscapedCleanly(s: string)
    requires IsBytes(s) && '\\' !in Escape(s)
    ensures Escape(s) == s && GoodText(s, false)
  {
    if s != [] {
      var e := EscapeChar(s[0]);
      assert Escape(s) == e + Escape(s[1..]);
      CleanChar(s[0], Escape(s[1..]));
      assert '\\' !in Escape(s[1..]);
      EscapedCleanly(s[1..]);
      assert [s[0]] + s[1..] == s;
    }
  }

  lemma CleanChar(c: char, rest: string)
    requires c as int < 256 && '\\' !in EscapeChar(c) + rest
    ensures EscapeChar(c) == [c] && c !in {'\"', '\\', '\0'}
  {
    assert EscapeChar(c)[0] in EscapeChar(c) + rest;
  }

  lemma FlagAfterReparse(s: string, encoded: bool)
    requires GoodText(s, encoded)
    ensures var flag := '\\' in Mark(Body(s, encoded), true);
      GoodText(s, flag) && Body(s, flag) == Body(s, encoded)
  {
    if !encoded {
      MarkOfPlain(s);
    } else if '\\' in Escape(s) {
      MarkKeepsBackslash(Escape(s));
    } else {
      EscapedCleanly(s);
      MarkOfPlain(s);
    }
  }

  lemma {:induction false} ReprintNode(n: Node, inArray: bool, mark: bool)
    requires Printable(n, inArray)
    ensures Printable(Reparse(n, inArray), inArray)
    ensures Render(Reparse(n, inArray), Compact, inArray, mark) == Render(n, Compact, inArray, mark)
    ensures (n.value == Null("")) == (Reparse(n, inArray).value == Null(""))
    decreases n, 1
  {
    FlagAfterReparse(n.name, n.nameEncoded);
    ReprintValue(n.value, mark);
  }

  lemma {:induction false} ReprintValue(v: Value, mark: bool)
    requires PrintableValue(v)
    ensures PrintableValue(ReparseValue(v))
    ensures RenderValue(ReparseValue(v), Compact, mark) == RenderValue(v, Compact, mark)
    decreases v, 0
  {
    match v
    case Str(s, e) => FlagAfterReparse(s, e);
    case Array(cs) =>
      if LoneBareNull(cs) {
        assert Render(cs[0], Compact, true, mark) == "";
        assert RenderList(cs, Compact, true, mark) == "";
      } else {
        ReprintList(cs, true, mark);
      }
    case Object(cs) => ReprintList(cs, false, mark);
    case _ =>
  }

  lemma {:induction false} ReprintList(cs: seq<Node>, inArray: bool, mark: bool)
    requires AllPrintable(cs, inArray)
    ensures AllPrintable(ReparseList(cs, inArray), inArray)
    ensures RenderList(ReparseList(cs, inArray), Compact, inArray, mark) == RenderList(cs, Compact, inArray, mark)
    ensures RenderChildren(ReparseList(cs, inArray), Compact, inArray, mark) ==
            RenderChildren(cs, Compact, inArray, mark)
    decreases cs, 0
  {
    ReparseLength(cs, inArray);
    if cs != [] {
      var again := ReparseList(cs, inArray);
      assert again[0] == Reparse(cs[0], inArray) && again[1..] == ReparseList(cs[1..], inArray);
      ReprintNode(cs[0], inArray, mark);
      ReprintList(cs[1..], inArray, mark);
      ReparseLength(cs[1..], inArray);
    }
  }

  /** Printing, parsing and printing again gives the same text, without any exception. */
  lemma PrintParsePrint(n: Node, lay: Layout)
    requires Printable(n, true) && Container(n.value)
    ensures var r := Parse(Render(n, lay, true, false));
      r.Root? && Printable(r.node, true) && Render(r.node, Compact, true, false) == Render(n, Compact, true, false)
  {
    ParsePrinted(n, lay);
    ReprintNode(n, true, false);
  }
}
