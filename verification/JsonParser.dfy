/**
 The lazy parser: FindNextRelevant, DoArray, DoNode and NewNode (JSONWorker.cpp), the parsing
 constructors and the Fetch family (internalJSONNode.cpp), with every node fetched.
 */
module JsonParser {
  import opened Wrappers
  import opened JsonText
  import opened JsonNode
  import opened JsonStripper

  // ------------------------------------------------------------ skipping

  /** What follows the closing quote, for a text that starts inside a quotation. */
  function SkipQuote(s: string): (r: Option<string>)
    ensures r.Some? ==> |r.value| < |s|
  {
    if s == [] || s[0] == '\0' then None
    else if s[0] == '\"' then Some(s[1..])
    else SkipQuote(s[1..])
  }

  /** What follows the bracket that closes depth open ones; quotations are skipped, brackets of the
      other kind are not looked at. */
  function SkipBracket(l: char, r: char, s: string, depth: nat): (o: Option<string>)
    ensures o.Some? && depth > 0 ==> |o.value| < |s|
    ensures o.Some? ==> |o.value| <= |s|
    decreases |s|
  {
    if depth == 0 then Some(s)
    else if s == [] then None
    else if s[0] == r then SkipBracket(l, r, s[1..], depth - 1)
    else if s[0] == l then SkipBracket(l, r, s[1..], depth + 1)
    else if s[0] == '\"' then
      var q := SkipQuote(s[1..]);
      if q.None? then None else SkipBracket(l, r, q.value, depth)
    else if s[0] == '\0' then None
    else SkipBracket(l, r, s[1..], depth)
  }

  /** The text from the next ch on that stands outside brackets and quotations. */
  function Find(ch: char, s: string): (r: Option<string>)
    ensures r.Some? ==> 0 < |r.value| <= |s| && r.value[0] == ch
    decreases |s|
  {
    if s == [] then None
    else if s[0] == ch then Some(s)
    else if s[0] == '[' then FindAfter(ch, SkipBracket('[', ']', s[1..], 1), |s|)
    else if s[0] == '{' then FindAfter(ch, SkipBracket('{', '}', s[1..], 1), |s|)
    else if s[0] == ']' || s[0] == '}' then None
    else if s[0] == '\"' then FindAfter(ch, SkipQuote(s[1..]), |s|)
    else Find(ch, s[1..])
  }

  function FindAfter(ch: char, s: Option<string>, bound: nat): (r: Option<string>)
    requires s.Some? ==> |s.value| < bound
    ensures r == if s.Some? then Find(ch, s.value) else None
    decreases bound, 0
  {
    if s.None? then None else Find(ch, s.value)
  }

  /** An index into value (None is npos) stands for the text that starts there. */
  ghost predicate Points(value: string, index: Option<int>, text: Option<string>) {
    match index
    case None => text.None?
    case Some(e) => 0 <= e <= |value| && text == Some(value[e..])
  }

  method SkipQuoteFrom(value: string, pos: nat) returns (end: Option<int>)
    requires pos <= |value|
    ensures Points(value, end, SkipQuote(value[pos..]))
  {
    var p := pos;
    while p < |value| && value[p] != '\"' && value[p] != '\0'
      invariant pos <= p <= |value|
      invariant SkipQuote(value[pos..]) == SkipQuote(value[p..])
    {
      assert value[p..][1..] == value[p + 1..];
      p := p + 1;
    }
    if p == |value| || value[p] == '\0' {
      return None;
    }
    assert value[p..][1..] == value[p + 1..];
    return Some(p + 1);
  }

  method SkipBracketFrom(l: char, r: char, value: string, pos: nat) returns (end: Option<int>)
    requires pos <= |value| && (l, r) in {('[', ']'), ('{', '}')}
    ensures Points(value, end, SkipBracket(l, r, value[pos..], 1))
  {
    var brac := 1;
    var p := pos;
    while brac > 0
      invariant 0 <= brac && pos <= p <= |value|
      invariant SkipBracket(l, r, value[pos..], 1) == SkipBracket(l, r, value[p..], brac)
      decreases |value| - p
    {
      if p == |value| || value[p] == '\0' {
        return None;
      }
      assert value[p..][0] == value[p] && value[p..][1..] == value[p + 1..];
      if value[p] == r {
        brac := brac - 1;
        p := p + 1;
      } else if value[p] == l {
        brac := brac + 1;
        p := p + 1;
      } else if value[p] == '\"' {
        var q := SkipQuoteFrom(value, p + 1);
        if q.None? {
          return None;
        }
        p := q.value;
      } else {
        p := p + 1;
      }
    }
    return Some(p);
  }

  /** JSONWorker::FindNextRelevant; None is npos. */
  method FindNextRelevant(ch: char, value: string, pos: nat) returns (found: Option<int>)
    requires pos <= |value|
    ensures Points(value, found, Find(ch, value[pos..]))
  {
    var p := pos;
    while p < |value|
      invariant pos <= p <= |value|
      invariant Find(ch, value[pos..]) == Find(ch, value[p..])
      decreases |value| - p
    {
      assert value[p..][0] == value[p] && value[p..][1..] == value[p + 1..];
      if value[p] == ch {
        return Some(p);
      }
      if value[p] == '[' || value[p] == '{' {
        var q := SkipBracketFrom(value[p], if value[p] == '[' then ']' else '}', value, p + 1);
        if q.None? {
          return None;
        }
        p := q.value;
      } else if value[p] == ']' || value[p] == '}' {
        return None;
      } else if value[p] == '\"' {
        var q := SkipQuoteFrom(value, p + 1);
        if q.None? {
          return None;
        }
        p := q.value;
      } else {
        p := p + 1;
      }
    }
    return None;
  }

  // ------------------------------------------------------------ splitting

  /** The unparsed children of a container: their names and values as raw text. Nullified is the result
      of Nullify on the parent, which keeps the children that were made before the fault; Undefined stands for
      undefined behaviour and for comments. */
  datatype Pieces = Undefined | Nullified(items: seq<(string, string)>) | Children(items: seq<(string, string)>)

  function AppendTo(items: seq<(string, string)>, rest: Pieces): Pieces {
    match rest
    case Undefined => Undefined
    case Nullified(more) => Nullified(items + more)
    case Children(more) => Children(items + more)
  }

  function Cons(item: (string, string), rest: Pieces): Pieces {
    AppendTo([item], rest)
  }

  /** A json_string made from a character pointer ends at the first NUL. */
  function CString(s: string): (r: string)
    ensures |r| <= |s|
  {
    if s == [] || s[0] == '\0' then [] else [s[0]] + CString(s[1..])
  }

  /** NewNode for an array element, in front of the following ones. */
  function Element(piece: string, rest: Pieces): Pieces {
    if Find(':', piece).Some? then Nullified([])
    else if piece != [] && piece[0] == '#' then Undefined
    else Cons(("", CString(piece)), rest)
  }

  /** The elements of an array, from the start of one of them on. */
  function ArrayItems(s: string): Pieces
    decreases |s|
  {
    var comma := Find(',', s);
    if comma.Some? then
      Element(s[..|s| - |comma.value|], ArrayItems(comma.value[1..]))
    else if s == [] then Undefined
    else Element(s[..|s| - 1], Children([]))
  }

  function SplitArray(value: string): Pieces {
    if value == [] || value[0] != '[' then Nullified([])
    else if |value| <= 2 then Children([])
    else ArrayItems(value[1..])
  }

  /** NewNode for a member, in front of the following ones; the name still has its opening quote. */
  function Member(name: string, value: string, rest: Pieces): Pieces
    requires name != []
  {
    if name[0] == '#' then Undefined else Cons((CString(name[1..]), value), rest)
  }

  /** The members of an object, from the start of a name on. */
  function ObjectItems(s: string): Pieces
    decreases |s|, 1
  {
    var colon := Find(':', s);
    if colon.None? then Nullified([])
    else
      var r := colon.value;
      if |s| - |r| < 2 then Undefined
      else
        AfterColon(s[..|s| - |r| - 1], r)
  }

  /** The value of a member and the members that follow, from the colon on. */
  function AfterColon(name: string, r: string): Pieces
    requires name != [] && r != [] && r[0] == ':'
    decreases |r|, 0
  {
    var comma := Find(',', r);
    if comma.Some? then
      Member(name, r[1..|r| - |comma.value|], ObjectItems(comma.value[1..]))
    else if |r| < 2 then Undefined
    else Member(name, r[1..|r| - 1], Children([]))
  }

  function SplitObject(value: string): Pieces {
    if value == [] || value[0] != '{' then Nullified([])
    else if |value| <= 2 then Children([])
    else ObjectItems(value[1..])
  }

  lemma AppendCons(items: seq<(string, string)>, item: (string, string), rest: Pieces)
    ensures AppendTo(items, Cons(item, rest)) == AppendTo(items + [item], rest)
  {
    if !rest.Undefined? {
      assert items + ([item] + rest.items) == (items + [item]) + rest.items;
    }
  }

  /** One step of ArrayItems, in terms of the indices that FindNextRelevant returns. */
  lemma ArrayItemsAt(value: string, starting: nat, ending: Option<int>)
    requires starting <= |value| && Points(value, ending, Find(',', value[starting..]))
    ensures match ending
      case Some(e) => starting <= e < |value|
        && ArrayItems(value[starting..]) == Element(value[starting..e], ArrayItems(value[e + 1..]))
      case None =>
        ArrayItems(value[starting..])
        == (if starting == |value| then Undefined else Element(value[starting..|value| - 1], Children([])))
  {
    var s := value[starting..];
    if ending.Some? {
      var e := ending.value;
      assert value[e..][1..] == value[e + 1..];
      assert s[..|s| - |value[e..]|] == value[starting..e];
    } else if s != [] {
      assert s[..|s| - 1] == value[starting..|value| - 1];
    }
  }

  /** JSONWorker::DoArray; the children it pushes are returned. */
  method DoArray(value: string) returns (pieces: Pieces)
    ensures pieces == SplitArray(value)
  {
    if value == [] || value[0] != '[' {
      return Nullified([]);
    }
    if |value| <= 2 {
      return Children([]);
    }
    var children: seq<(string, string)> := [];
    var starting := 1;
    var ending := FindNextRelevant(',', value, 1);
    while ending.Some?
      invariant 1 <= starting <= |value|
      invariant Points(value, ending, Find(',', value[starting..]))
      invariant SplitArray(value) == AppendTo(children, ArrayItems(value[starting..]))
      decreases |value| - starting
    {
      ArrayItemsAt(value, starting, ending);
      var newValue := value[starting..ending.value];
      var child := NewElement(newValue);
      ElementAfter(children, newValue, ArrayItems(value[ending.value + 1..]));
      if !child.Children? {
        return AppendTo(children, child);
      }
      children := children + child.items;
      starting := ending.value + 1;
      ending := FindNextRelevant(',', value, starting);
    }
    ArrayItemsAt(value, starting, ending);
    if starting == |value| {
      return Undefined;
    }
    var newValue := value[starting..|value| - 1];
    var child := NewElement(newValue);
    ElementAfter(children, newValue, Children([]));
    return AppendTo(children, child);
  }

  /** The check for a colon and NewNode. */
  method NewElement(piece: string) returns (child: Pieces)
    ensures child == Element(piece, Children([]))
  {
    var colon := FindNextRelevant(':', piece, 0);
    assert piece[0..] == piece;
    if colon.Some? {
      return Nullified([]);
    }
    if piece != [] && piece[0] == '#' {
      return Undefined;
    }
    return Children([("", CString(piece))]);
  }

  lemma ElementAfter(children: seq<(string, string)>, piece: string, rest: Pieces)
    ensures var child := Element(piece, Children([]));
      AppendTo(children, Element(piece, rest)) ==
      if child.Children? then AppendTo(children + child.items, rest) else AppendTo(children, child)
  {
    AppendCons(children, ("", CString(piece)), rest);
  }

  function ObjectStep(value: string, start: nat, e: int, comma: Option<int>): Pieces
    requires start <= e < |value| && (comma.Some? ==> 0 <= comma.value <= |value|)
  {
    if e < start + 2 then Undefined
    else
      match comma
      case Some(c) =>
        if c <= e || c == |value| then Undefined
        else Member(value[start..e - 1], value[e + 1..c], ObjectItems(value[c + 1..]))
      case None =>
        if e + 1 == |value| then Undefined
        else Member(value[start..e - 1], value[e + 1..|value| - 1], Children([]))
  }

  /** One step of ObjectItems, in the same way. */
  lemma ObjectItemsAt(value: string, start: nat, colon: Option<int>, comma: Option<int>)
    requires start <= |value| && Points(value, colon, Find(':', value[start..]))
    requires colon.Some? ==> Points(value, comma, Find(',', value[colon.value..]))
    ensures match colon
      case None => ObjectItems(value[start..]) == Nullified([])
      case Some(e) =>
        start <= e < |value| && ObjectItems(value[start..]) == ObjectStep(value, start, e, comma)
  {
    if colon.Some? {
      ColonAt(value, start, colon.value);
      if colon.value >= start + 2 {
        CommaAt(value, value[start..colon.value - 1], colon.value, comma);
      }
    }
  }

  lemma ColonAt(value: string, start: nat, e: int)
    requires start <= |value| && Points(value, Some(e), Find(':', value[start..]))
    ensures start <= e < |value| && value[e..][0] == ':'
    ensures ObjectItems(value[start..]) ==
            if e < start + 2 then Undefined else AfterColon(value[start..e - 1], value[e..])
  {
    if e >= start + 2 {
      SliceOfRest(value, start, 0, e - 1 - start);
    }
  }

  lemma CommaAt(value: string, name: string, e: nat, comma: Option<int>)
    requires e < |value| && name != [] && value[e..][0] == ':' && Points(value, comma, Find(',', value[e..]))
    ensures AfterColon(name, value[e..]) ==
            match comma
            case Some(c) =>
              if c <= e || c == |value| then Undefined else Member(name, value[e + 1..c], ObjectItems(value[c + 1..]))
            case None =>
              if e + 1 == |value| then Undefined else Member(name, value[e + 1..|value| - 1], Children([]))
  {
    var r := value[e..];
    if comma.Some? {
      var c := comma.value;
      assert value[c..][0] == ',' && value[c..][1..] == value[c + 1..];
      SliceOfRest(value, e, 1, c - e);
    } else if |r| >= 2 {
      SliceOfRest(value, e, 1, |r| - 1);
    }
  }

  lemma SliceOfRest(value: string, at: nat, i: nat, j: nat)
    requires i <= j && at + j <= |value|
    ensures value[at..][i..j] == value[at + i..at + j]
  {
  }

  /** The members found so far and those still to come are all the members. */
  ghost predicate SoFar(value: string, children: seq<(string, string)>, start: int) {
    0 <= start <= |value| && SplitObject(value) == AppendTo(children, ObjectItems(value[start..]))
  }

  /** What a member with its colon at e and its comma at c adds. */
  lemma ObjectAdvance(value: string, start: nat, e: int, c: int, children: seq<(string, string)>, child: Pieces)
    requires SoFar(value, children, start)
    requires Points(value, Some(e), Find(':', value[start..]))
    requires Points(value, Some(c), Find(',', value[e..])) && start + 2 <= e < c < |value|
    requires child == Member(value[start..e - 1], value[e + 1..c], Children([]))
    ensures if child.Children? then SoFar(value, children + child.items, c + 1)
            else SplitObject(value) == AppendTo(children, child)
  {
    ObjectItemsAt(value, start, Some(e), Some(c));
    assert value[e..][0] == ':' && value[c..][0] == ',';
    MemberAfter(children, value[start..e - 1], value[e + 1..c], ObjectItems(value[c + 1..]));
  }

  lemma ColonBeforeComma(value: string, e: int, c: int)
    requires 0 <= e <= |value| && Points(value, Some(c), Find(',', value[e..]))
    requires e < |value| && value[e] == ':'
    ensures e < c < |value|
  {
    assert value[e..][0] == ':' && value[c..][0] == ',';
  }

  lemma MemberAfter(children: seq<(string, string)>, name: string, value: string, rest: Pieces)
    requires name != []
    ensures var child := Member(name, value, Children([]));
      AppendTo(children, Member(name, value, rest)) ==
      if child.Children? then AppendTo(children + child.items, rest) else AppendTo(children, child)
  {
    AppendCons(children, (CString(name[1..]), value), rest);
  }

  /** JSONWorker::DoNode; the children it pushes are returned. */
  method DoNode(value: string) returns (pieces: Pieces)
    ensures pieces == SplitObject(value)
  {
    if value == [] || value[0] != '{' {
      return Nullified([]);
    }
    if |value| <= 2 {
      return Children([]);
    }
    var children: seq<(string, string)> := [];
    var nameStarting := 1;
    var nameEnding := FindNextRelevant(':', value, 1);
    var valueEnding: Option<int> := None;
    if nameEnding.Some? {
      valueEnding := FindNextRelevant(',', value, nameEnding.value);
    }
    while nameEnding.Some? && nameEnding.value >= nameStarting + 2 && valueEnding.Some?
      invariant 1 <= nameStarting <= |value|
      invariant Points(value, nameEnding, Find(':', value[nameStarting..]))
      invariant nameEnding.Some? ==> Points(value, valueEnding, Find(',', value[nameEnding.value..]))
      invariant SoFar(value, children, nameStarting)
      decreases |value| - nameStarting
    {
      ColonBeforeComma(value, nameEnding.value, valueEnding.value);
      var child := NewMember(value[nameStarting..nameEnding.value - 1], value[nameEnding.value + 1..valueEnding.value]);
      ObjectAdvance(value, nameStarting, nameEnding.value, valueEnding.value, children, child);
      if !child.Children? {
        return AppendTo(children, child);
      }
      children := children + child.items;
      nameStarting := valueEnding.value + 1;
      nameEnding := FindNextRelevant(':', value, nameStarting);
      if nameEnding.Some? {
        valueEnding := FindNextRelevant(',', value, nameEnding.value);
      }
    }
    pieces := LastMember(value, children, nameStarting, nameEnding, valueEnding);
  }

  /** The part of DoNode behind the loop, when no further comma or no usable colon is left. */
  method LastMember(value: string, children: seq<(string, string)>, nameStarting: nat,
                    nameEnding: Option<int>, ghost valueEnding: Option<int>) returns (pieces: Pieces)
    requires SoFar(value, children, nameStarting)
    requires Points(value, nameEnding, Find(':', value[nameStarting..]))
    requires nameEnding.Some? ==> Points(value, valueEnding, Find(',', value[nameEnding.value..]))
    requires nameEnding.Some? && nameEnding.value >= nameStarting + 2 ==> valueEnding.None?
    ensures pieces == SplitObject(value)
  {
    ObjectItemsAt(value, nameStarting, nameEnding, valueEnding);
    if nameEnding.None? {
      return Nullified(children);
    }
    if nameEnding.value < nameStarting + 2 || nameEnding.value + 1 == |value| {
      return Undefined;
    }
    var name, text := value[nameStarting..nameEnding.value - 1], value[nameEnding.value + 1..|value| - 1];
    var child := NewMember(name, text);
    MemberAfter(children, name, text, Children([]));
    return AppendTo(children, child);
  }

  method NewMember(name: string, value: string) returns (child: Pieces)
    requires name != []
    ensures child == Member(name, value, Children([]))
  {
    if name[0] == '#' {
      return Undefined;
    }
    return Children([(CString(name[1..]), value)]);
  }

  // ------------------------------------------------------------ fetching

  /** The parsing constructor with a name, followed by a full fetch of the node. None stands for
      undefined behaviour and for comments. */
  function ParseNode(name: string, text: string): Option<Node>
    decreases |text|, 2, 0
  {
    match Unescape(name)
    case Text(n) =>
      var v := ParseValue(text);
      if v.None? then None else Some(Node(n, '\\' in name, v.value))
    case _ => None
  }

  function ParseValue(text: string): Option<Value>
    decreases |text|, 1, 0
  {
    if text == [] then Some(Null(""))
    else
      var last := text[|text| - 1];
      if text[0] == '\"' then
        if last != '\"' then Some(Null("null"))
        else if |text| < 2 then None
        else
          match Unescape(text[1..|text| - 1])
          case Text(s) => Some(Str(s, '\\' in text[1..|text| - 1]))
          case _ => None
      else if text[0] == '{' then
        if last != '}' then Some(Null("null")) else
        var kids := SplitObject(text);
        SplitIsShorter(text);
        if kids.Undefined? then None
        else if kids.Nullified? then Some(Null(""))
        else
          var cs := ParseList(kids.items, |text|);
          if cs.None? then None else Some(Object(cs.value))
      else if text[0] == '[' then
        if last != ']' then Some(Null("null")) else
        var kids := SplitArray(text);
        SplitIsShorter(text);
        if kids.Undefined? then None
        else if kids.Nullified? then Some(Null(""))
        else
          var cs := ParseList(kids.items, |text|);
          if cs.None? then None else Some(Array(cs.value))
      else if text[0] in {'t', 'T'} then
        Some(if text == "true" then Bool(true) else Null("null"))
      else if text[0] in {'f', 'F'} then
        Some(if text == "false" then Bool(false) else Null("null"))
      else if text[0] in {'n', 'N'} then Some(Null("null"))
      else Some(if IsNumeric(text) then Number(text) else Null("null"))
  }

  function ParseList(items: seq<(string, string)>, bound: nat): Option<seq<Node>>
    requires forall i | 0 <= i < |items| :: |items[i].1| < bound
    decreases bound, 0, |items|
  {
    if items == [] then Some([])
    else
      var first := ParseNode(items[0].0, items[0].1);
      var rest := ParseList(items[1..], bound);
      if first.None? || rest.None? then None else Some([first.value] + rest.value)
  }

  ghost predicate Shorter(p: Pieces, bound: nat) {
    !p.Undefined? ==> forall i | 0 <= i < |p.items| :: |p.items[i].1| < bound
  }

  /** The text of a child is shorter than the text of its parent, so fetching everything terminates. */
  lemma SplitIsShorter(text: string)
    ensures Shorter(SplitArray(text), |text|) && Shorter(SplitObject(text), |text|)
  {
    if text != [] {
      ItemsAreShorter(text[1..], |text|);
    }
  }

  lemma {:induction false} ItemsAreShorter(s: string, bound: nat)
    requires |s| < bound
    ensures Shorter(ArrayItems(s), bound) && Shorter(ObjectItems(s), bound)
    decreases |s|
  {
    var comma := Find(',', s);
    if comma.Some? {
      ItemsAreShorter(comma.value[1..], bound);
    }
    var colon := Find(':', s);
    if colon.Some? {
      var comma := Find(',', colon.value);
      if comma.Some? {
        ItemsAreShorter(comma.value[1..], bound);
      }
    }
  }

  datatype Parsed = Rejected | Undefined' | Root(node: Node)

  /** JSONWorker::parse: strip, check the outer brackets, and build the root. */
  function Parse(json: string): Parsed {
    match Outside(json, true)
    case Text(s) => ParseRoot(s)
    case _ => Undefined'
  }

  function ParseRoot(s: string): Parsed {
    if s == [] then Rejected
    else
      var last := s[|s| - 1];
      if (s[0] == '[' && last == ']') || (s[0] == '{' && last == '}') then
        var v := ParseValue(s);
        if v.None? then Undefined' else Root(Node("", false, v.value))
      else Rejected
  }

  /** White space may be put anywhere outside quotations. */
  lemma SpacedParse(a: string, c: char, b: string)
    requires EndsOutside(a) && (c == ' ' || c == '\t' || c == '\n' || c == '\r')
    ensures Parse(a + [c] + b) == Parse(a + b)
  {
    WhiteSpaceIsFree(a, c, b, true);
  }

  /** What a text without quotes and brackets around it stands for: a literal exactly when it is spelled in full and in
      lower case, a number, and a null in all other cases. */
  lemma ParseSimple(text: string)
    requires text != ""
    ensures text[0] !in {'\"', '{', '['} ==>
              ParseValue(text) ==
              Some(if text == "true" then Bool(true) else if text == "false" then Bool(false)
                   else if IsNumeric(text) then Number(text) else Null("null"))
  {
    if text[0] !in {'\"', '{', '[', 't', 'T', 'f', 'F', 'n', 'N'} {
      assert text != "true" && text != "false";
    } else if IsNumeric(text) {
      assert text[0] !in {'t', 'T', 'f', 'F', 'n', 'N'};
    }
  }

  /** So is a text whose closing quote or bracket is missing. */
  lemma ParseUnclosed(text: string)
    requires text != "" && text[0] in {'\"', '{', '['}
    requires text[|text| - 1] != if text[0] == '{' then '}' else if text[0] == '[' then ']' else '\"'
    ensures ParseValue(text) == Some(Null("null"))
  {
  }

  lemma {:induction false} SkippedQuoteIsPart(s: string, c: char)
    requires SkipQuote(s).Some? && c in SkipQuote(s).value
    ensures c in s
  {
    if s[0] != '\"' {
      SkippedQuoteIsPart(s[1..], c);
    }
  }

  lemma {:induction false} SkippedBracketIsPart(l: char, r: char, s: string, depth: nat, c: char)
    requires SkipBracket(l, r, s, depth).Some? && c in SkipBracket(l, r, s, depth).value
    ensures c in s
    decreases |s|
  {
    if depth > 0 {
      if s[0] == r {
        SkippedBracketIsPart(l, r, s[1..], depth - 1, c);
      } else if s[0] == l {
        SkippedBracketIsPart(l, r, s[1..], depth + 1, c);
      } else if s[0] == '\"' {
        SkippedBracketIsPart(l, r, SkipQuote(s[1..]).value, depth, c);
        SkippedQuoteIsPart(s[1..], c);
      } else {
        SkippedBracketIsPart(l, r, s[1..], depth, c);
      }
    }
  }

  lemma {:induction false} FoundIsPart(ch: char, s: string)
    requires Find(ch, s).Some?
    ensures ch in s
    decreases |s|
  {
    if s[0] != ch {
      if s[0] == '[' || s[0] == '{' {
        var r := if s[0] == '[' then ']' else '}';
        FoundIsPart(ch, SkipBracket(s[0], r, s[1..], 1).value);
        SkippedBracketIsPart(s[0], r, s[1..], 1, ch);
      } else if s[0] == '\"' {
        FoundIsPart(ch, SkipQuote(s[1..]).value);
        SkippedQuoteIsPart(s[1..], ch);
      } else {
        FoundIsPart(ch, s[1..]);
      }
    }
  }

  /** An object without a colon is a null, and so is an array with a colon outside inner brackets and quotations in its
      first element. */
  lemma MissingColon(text: string)
    requires |text| > 2 && text[0] == '{' && text[|text| - 1] == '}' && ':' !in text
    ensures SplitObject(text) == Nullified([]) && ParseValue(text) == Some(Null(""))
  {
    if Find(':', text[1..]).Some? {
      FoundIsPart(':', text[1..]);
    }
  }

  lemma ExtraColon(text: string)
    requires |text| > 2 && text[0] == '[' && text[|text| - 1] == ']'
    requires ',' !in text && Find(':', text[1..|text| - 1]).Some?
    ensures SplitArray(text) == Nullified([]) && ParseValue(text) == Some(Null(""))
  {
    var s := text[1..];
    if Find(',', s).Some? {
      FoundIsPart(',', s);
    }
    assert s[..|s| - 1] == text[1..|text| - 1];
  }

  // ------------------------------------------------------------ the methods

  /** FetchString, FetchNode, FetchArray and FetchNumber on a new node and on all its children. */
  method FetchValue(text: string) returns (v: Option<Value>)
    ensures v == ParseValue(text)
    decreases |text|, 1
  {
    if text == [] {
      return Some(Null(""));
    }
    var last := text[|text| - 1];
    if text[0] == '\"' {
      if last != '\"' {
        return Some(Null("null"));
      }
      if |text| < 2 {
        return None;
      }
      var s, flag := FixString(text[1..|text| - 1]);
      if s.Text? {
        return Some(Str(s.text, flag));
      }
      return None;
    }
    if text[0] == '{' || text[0] == '[' {
      if last != (if text[0] == '{' then '}' else ']') {
        return Some(Null("null"));
      }
      var kids;
      if text[0] == '{' {
        kids := DoNode(text);
      } else {
        kids := DoArray(text);
      }
      SplitIsShorter(text);
      if kids.Undefined? {
        return None;
      }
      if kids.Nullified? {
        return Some(Null(""));
      }
      var cs := FetchList(kids.items, |text|);
      if cs.None? {
        return None;
      }
      return Some(if text[0] == '{' then Object(cs.value) else Array(cs.value));
    }
    if text[0] in {'t', 'T'} {
      return Some(if text == "true" then Bool(true) else Null("null"));
    }
    if text[0] in {'f', 'F'} {
      return Some(if text == "false" then Bool(false) else Null("null"));
    }
    if text[0] in {'n', 'N'} {
      return Some(Null("null"));
    }
    return Some(if IsNumeric(text) then Number(text) else Null("null"));
  }

  function AppendNodes(done: seq<Node>, rest: Option<seq<Node>>): Option<seq<Node>> {
    if rest.None? then None else Some(done + rest.value)
  }

  method FetchList(items: seq<(string, string)>, bound: nat) returns (cs: Option<seq<Node>>)
    requires forall i | 0 <= i < |items| :: |items[i].1| < bound
    ensures cs == ParseList(items, bound)
    decreases bound, 0
  {
    var done: seq<Node> := [];
    assert items[0..] == items;
    ghost var all := ParseList(items, bound);
    assert all.Some? ==> [] + all.value == all.value;
    for i := 0 to |items|
      invariant ParseList(items, bound) == AppendNodes(done, ParseList(items[i..], bound))
    {
      assert items[i..][0] == items[i] && items[i..][1..] == items[i + 1..];
      var name, flag := FixString(items[i].0);
      var v := FetchValue(items[i].1);
      if !name.Text? || v.None? {
        return None;
      }
      var n := Node(name.text, flag, v.value);
      ghost var rest := ParseList(items[i + 1..], bound);
      if rest.Some? {
        assert done + ([n] + rest.value) == (done + [n]) + rest.value;
      }
      done := done + [n];
    }
    assert done + [] == done;
    return Some(done);
  }

  method ParseJson(json: string, used: bool) returns (r: Parsed, used': bool)
    ensures r == Parse(json) && used' == (used || Rewrites(json))
  {
    var s;
    s, used' := RemoveWhiteSpace(json, true, used);
    if !s.Text? {
      return Undefined', used';
    }
    if s.text == [] {
      return Rejected, used';
    }
    var last := s.text[|s.text| - 1];
    if (s.text[0] == '[' && last == ']') || (s.text[0] == '{' && last == '}') {
      var v := FetchValue(s.text);
      if v.None? {
        return Undefined', used';
      }
      return Root(Node("", false, v.value)), used';
    }
    return Rejected, used';
  }
}
