/**
 The unformatted text with and without its escaped quotes rewritten.
 */
module JsonMarks {
  import opened JsonText
  import opened JsonNode
  import opened JsonWriter

  /** Some quotes of b are rewritten in a. */
  ghost predicate Rewritten(a: string, b: string) {
    |a| == |b| && forall i | 0 <= i < |a| :: a[i] == b[i] || (a[i] == '\U{1}' && b[i] == '\"')
  }

  lemma RewrittenConcat(a: string, b: string, c: string, d: string)
    requires Rewritten(a, b) && Rewritten(c, d)
    ensures Rewritten(a + c, b + d)
  {
  }

  lemma {:induction false} RewrittenMark(s: string)
    ensures Rewritten(Mark(s, true), Mark(s, false))
  {
    if s != [] {
      if s[0] == '\\' && |s| > 1 {
        RewrittenMark(s[2..]);
        RewrittenConcat(['\\', Marked(s[1], true)], ['\\', s[1]], Mark(s[2..], true), Mark(s[2..], false));
      } else {
        RewrittenMark(s[1..]);
        RewrittenConcat([s[0]], [s[0]], Mark(s[1..], true), Mark(s[1..], false));
      }
    }
  }

  lemma RewrittenAround(l: string, r: string, a: string, b: string)
    requires Rewritten(a, b)
    ensures Rewritten(l + a + r, l + b + r)
  {
  }

  lemma {:induction false} RewrittenValue(v: Value)
    ensures Rewritten(RenderValue(v, Compact, true), RenderValue(v, Compact, false))
    decreases v, 0
  {
    match v
    case Str(s, e) =>
      RewrittenMark(Body(s, e));
      RewrittenAround(['\"'], ['\"'], Mark(Body(s, e), true), Mark(Body(s, e), false));
    case Array(cs) =>
      RewrittenChildren(cs, true);
      RewrittenAround(['['], [']'], RenderChildren(cs, Compact, true, true), RenderChildren(cs, Compact, true, false));
    case Object(cs) =>
      RewrittenChildren(cs, false);
      RewrittenAround(['{'], ['}'], RenderChildren(cs, Compact, false, true),
                      RenderChildren(cs, Compact, false, false));
    case _ =>
  }

  lemma {:induction false} RewrittenChildren(cs: seq<Node>, inArray: bool)
    ensures Rewritten(RenderChildren(cs, Compact, inArray, true), RenderChildren(cs, Compact, inArray, false))
    decreases cs, 2
  {
    RewrittenList(cs, inArray);
  }

  lemma {:induction false} RewrittenList(cs: seq<Node>, inArray: bool)
    ensures Rewritten(RenderList(cs, Compact, inArray, true), RenderList(cs, Compact, inArray, false))
    decreases cs, 1
  {
    if cs != [] {
      RewrittenNode(cs[0], inArray);
      var a, b := Render(cs[0], Compact, inArray, true), Render(cs[0], Compact, inArray, false);
      if |cs| > 1 {
        RewrittenList(cs[1..], inArray);
        var c, d := RenderList(cs[1..], Compact, inArray, true), RenderList(cs[1..], Compact, inArray, false);
        RewrittenAround([','], "", c, d);
        RewrittenConcat(a, b, [','] + c, [','] + d);
      }
    }
  }

  lemma {:induction false} RewrittenNode(n: Node, inArray: bool)
    ensures Rewritten(Render(n, Compact, inArray, true), Render(n, Compact, inArray, false))
    decreases n, 1
  {
    RewrittenMark(Body(n.name, n.nameEncoded));
    RewrittenAround(['\"'], "\":", Mark(Body(n.name, n.nameEncoded), true), Mark(Body(n.name, n.nameEncoded), false));
    RewrittenValue(n.value);
    RewrittenConcat(NameText(n, Compact, inArray, true), NameText(n, Compact, inArray, false),
                    RenderValue(n.value, Compact, true), RenderValue(n.value, Compact, false));
  }

  lemma {:induction false} UnmarkedHasNoNul(v: Value)
    requires '\0' !in RenderValue(v, Compact, true)
    ensures '\0' !in RenderValue(v, Compact, false)
  {
    RewrittenValue(v);
    var a, b := RenderValue(v, Compact, true), RenderValue(v, Compact, false);
    forall i | 0 <= i < |b|
      ensures b[i] != '\0'
    {
      assert a[i] in a;
    }
  }
}
