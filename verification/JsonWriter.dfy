/**
 internalJSONNode::Write and its helpers (JSONWriter.cpp) on a fully fetched tree.
 */
module JsonWriter {
  import opened JsonText
  import opened JsonNode

  /** The indent argument: Compact is 0xFFFFFFFF. */
  datatype Layout = Compact | Pretty(indent: nat)

  function Inner(lay: Layout): Layout {
    if lay.Pretty? then Pretty(lay.indent + 1) else lay
  }

  function MakeIndent(lay: Layout): string {
    if lay.Pretty? then seq(lay.indent, _ => '\t') else ""
  }

  function NewLine(lay: Layout): string {
    if lay.Pretty? then "\n" + MakeIndent(lay) else ""
  }

  function Body(s: string, encoded: bool): string {
    if encoded then Escape(s) else s
  }

  function NameText(n: Node, lay: Layout, arrayChild: bool, mark: bool): string {
    if arrayChild then ""
    else ['\"'] + Mark(Body(n.name, n.nameEncoded), mark) + (if lay.Pretty? then "\" : " else "\":")
  }

  /** The printed text of a node. With mark, the text after the stripper rewrote its escaped quotes. */
  function Render(n: Node, lay: Layout, arrayChild: bool, mark: bool): string
    decreases n, 1
  {
    NameText(n, lay, arrayChild, mark) + RenderValue(n.value, lay, mark)
  }

  function RenderValue(v: Value, lay: Layout, mark: bool): string
    decreases v, 0
  {
    match v
    case Null(t) => t
    case Bool(b) => if b then "true" else "false"
    case Number(t) => t
    case Str(s, e) => ['\"'] + Mark(Body(s, e), mark) + ['\"']
    case Array(cs) => ['['] + RenderChildren(cs, lay, true, mark) + [']']
    case Object(cs) => ['{'] + RenderChildren(cs, lay, false, mark) + ['}']
  }

  function RenderChildren(cs: seq<Node>, lay: Layout, inArray: bool, mark: bool): string
    decreases cs, 1
  {
    if cs == [] then "" else RenderList(cs, Inner(lay), inArray, mark) + NewLine(lay)
  }

  function RenderList(cs: seq<Node>, lay: Layout, inArray: bool, mark: bool): string
    decreases cs, 0
  {
    if cs == [] then ""
    else
      NewLine(lay) + Render(cs[0], lay, inArray, mark)
      + (if |cs| > 1 then [','] + RenderList(cs[1..], lay, inArray, mark) else "")
  }

  // -------------------------------------------------------------- the methods

  method WriteName(n: Node, formatted: bool, arrayChild: bool, output: string) returns (out: string)
    ensures out == output + NameText(n, if formatted then Pretty(0) else Compact, arrayChild, false)
  {
    out := output;
    if !arrayChild {
      out := UnfixString(n.name, n.nameEncoded, output + ['\"']);
      var end := if formatted then "\" : " else "\":";
      out := out + end;
      MarkOff(Body(n.name, n.nameEncoded));
      Quoted(output, '\"', Body(n.name, n.nameEncoded), end);
    }
  }

  lemma Quoted(a: string, l: char, b: string, end: string)
    ensures a + [l] + b + end == a + ([l] + b + end)
  {
  }

  lemma Bracketed(a: string, l: char, b: string, r: char)
    ensures a + [l] + b + [r] == a + ([l] + b + [r])
  {
  }

  method Write(n: Node, lay: Layout, arrayChild: bool, output: string) returns (out: string)
    ensures out == output + Render(n, lay, arrayChild, false)
    decreases n, 1
  {
    out := WriteName(n, lay.Pretty?, arrayChild, output);
    out := WriteValue(n.value, lay, out);
  }

  method WriteValue(v: Value, lay: Layout, output: string) returns (out: string)
    ensures out == output + RenderValue(v, lay, false)
    decreases v, 0
  {
    match v
    case Object(cs) =>
      out := WriteChildren(cs, lay, false, output + ['{']);
      out := out + ['}'];
      Bracketed(output, '{', RenderChildren(cs, lay, false, false), '}');
    case Array(cs) =>
      out := WriteChildren(cs, lay, true, output + ['[']);
      out := out + [']'];
      Bracketed(output, '[', RenderChildren(cs, lay, true, false), ']');
    case Number(t) =>
      out := output + t;
    case Null(t) =>
      out := output + t;
    case Bool(b) =>
      out := output + (if b then "true" else "false");
    case Str(s, e) =>
      out := UnfixString(s, e, output + ['\"']);
      out := out + ['\"'];
      MarkOff(Body(s, e));
      Bracketed(output, '\"', Body(s, e), '\"');
  }

  /** The list from element i on starts with element i, and with a comma when more follow. */
  lemma RenderListAt(cs: seq<Node>, i: nat, lay: Layout, inArray: bool)
    requires i < |cs|
    ensures RenderList(cs[i..], lay, inArray, false)
         == NewLine(lay) + Render(cs[i], lay, inArray, false)
            + (if i + 1 < |cs| then [','] else "") + RenderList(cs[i + 1..], lay, inArray, false)
  {
    var rest := cs[i..];
    assert rest[0] == cs[i] && rest[1..] == cs[i + 1..];
    var head := NewLine(lay) + Render(cs[i], lay, inArray, false);
    var tail := RenderList(cs[i + 1..], lay, inArray, false);
    if i + 1 < |cs| {
      assert head + ([','] + tail) == (head + [',']) + tail;
    } else {
      assert head + "" == head && (head + "") + tail == head;
    }
  }

  lemma Append4(a: string, b: string, c: string, d: string, e: string)
    ensures a + b + c + d + e == a + (b + c + d + e)
  {
  }

  method WriteChildren(cs: seq<Node>, lay: Layout, inArray: bool, output: string) returns (out: string)
    ensures out == output + RenderChildren(cs, lay, inArray, false)
    decreases cs, 0
  {
    out := output;
    if cs == [] {
      return;
    }
    var inner := Inner(lay);
    var indentPlusOne := NewLine(inner);
    assert cs[0..] == cs;
    for i := 0 to |cs|
      invariant out + RenderList(cs[i..], inner, inArray, false)
             == output + RenderList(cs, inner, inArray, false)
    {
      RenderListAt(cs, i, inner, inArray);
      Append4(out, indentPlusOne, Render(cs[i], inner, inArray, false),
              if i + 1 < |cs| then [','] else "", RenderList(cs[i + 1..], inner, inArray, false));
      out := Write(cs[i], inner, inArray, out + indentPlusOne);
      out := out + (if i + 1 < |cs| then [','] else "");
    }
    assert out + "" == out;
    if lay.Pretty? {
      out := out + "\n" + MakeIndent(lay);
      Append3(output, RenderList(cs, inner, inArray, false), "\n", MakeIndent(lay));
    }
  }

  lemma Append3(a: string, b: string, c: string, d: string)
    ensures a + b + c + d == a + (b + (c + d))
  {
  }
}
