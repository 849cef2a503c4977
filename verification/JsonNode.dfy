/**
 The JSON tree behind internalJSONNode once it is fully fetched, without comments.
 */
module JsonNode {
  import opened JsonText

  /** The encoded flags say whether the writer must escape the name and the string. A JSON_NULL node made
      by its constructor has an empty text, one made by nullify or by parsing "null" has the text null. */
  datatype Node = Node(name: string, nameEncoded: bool, value: Value)
  datatype Value =
    | Null(nullText: string)
    | Bool(b: bool)
    | Number(text: string)
    | Str(chars: string, encoded: bool)
    | Array(elements: seq<Node>)
    | Object(members: seq<Node>)

  predicate Digit(c: char) { '0' <= c <= '9' }

  predicate HexChar(c: char) { Digit(c) || 'A' <= c <= 'F' || 'a' <= c <= 'f' }

  // ------------------------------------------------------------- numerals

  /** NumberToString::isNumeric, after its first character. */
  predicate NumericTail(s: string, decimal: bool, scientific: bool) {
    if s == [] || s[0] == '\0' then true
    else if s[0] == '.' then !decimal && !scientific && NumericTail(s[1..], true, scientific)
    else if s[0] == 'e' || s[0] == 'E' then
      && !scientific
      && |s| > 1
      && (Digit(s[1]) || ((s[1] == '-' || s[1] == '+') && |s| > 2 && Digit(s[2])))
      && NumericTail(s[2..], decimal, true)
    else Digit(s[0]) && NumericTail(s[1..], decimal, scientific)
  }

  /** NumberToString::isNumeric: what the parser takes for a number. */
  predicate IsNumeric(s: string) {
    if s == [] || s[0] == '\0' then false
    else if s[0] == '.' then NumericTail(s[1..], true, false)
    else if s[0] == '+' || s[0] == '-' then
      && |s| > 1
      && s[1] !in {'.', 'e', 'E', '\0'}
      && NumericTail(if s[1] == '0' then s[2..] else s[1..], false, false)
    else if '1' <= s[0] <= '9' then NumericTail(s[1..], false, false)
    else if s[0] != '0' then false
    else if |s| == 1 || s[1] == '\0' then true
    else if s[1] == '.' then NumericTail(s[2..], true, false)
    else if s[1] == 'e' || s[1] == 'E' then
      && |s| > 2
      && (Digit(s[2]) || s[2] == '-' || s[2] == '+')
      && NumericTail(s[3..], false, true)
    else if s[1] == 'x' then forall i | 2 <= i < |s| :: HexChar(s[i])
    else '1' <= s[1] <= '7' && forall i | 1 <= i < |s| :: '0' <= s[i] <= '7'
  }

  predicate NumeralChar(c: char) {
    HexChar(c) || c == 'x' || c == '.' || c == '+' || c == '-'
  }

  lemma {:induction false} NumericTailChars(s: string, decimal: bool, scientific: bool)
    requires NumericTail(s, decimal, scientific) && '\0' !in s
    ensures forall i | 0 <= i < |s| :: NumeralChar(s[i])
  {
    if s != [] {
      if s[0] == 'e' || s[0] == 'E' {
        NumericTailChars(s[2..], decimal, true);
        assert forall i | 2 <= i < |s| :: s[i] == s[2..][i - 2];
      } else {
        NumericTailChars(s[1..], decimal || s[0] == '.', scientific);
        assert forall i | 1 <= i < |s| :: s[i] == s[1..][i - 1];
      }
    }
  }

  /** A numeral the parser accepts holds no character with a meaning to the scanners. */
  lemma NumeralChars(s: string)
    requires IsNumeric(s) && '\0' !in s
    ensures s != [] && forall i | 0 <= i < |s| :: NumeralChar(s[i])
    ensures Digit(s[0]) || s[0] in {'.', '+', '-'}
  {
    if s[0] == '.' {
      NumericTailChars(s[1..], true, false);
      assert forall i | 1 <= i < |s| :: s[i] == s[1..][i - 1];
    } else if s[0] == '+' || s[0] == '-' {
      var k := if s[1] == '0' then 2 else 1;
      NumericTailChars(s[k..], false, false);
      assert forall i | k <= i < |s| :: s[i] == s[k..][i - k];
    } else if '1' <= s[0] <= '9' {
      NumericTailChars(s[1..], false, false);
      assert forall i | 1 <= i < |s| :: s[i] == s[1..][i - 1];
    } else if |s| > 1 {
      if s[1] == '.' {
        NumericTailChars(s[2..], true, false);
        assert forall i | 2 <= i < |s| :: s[i] == s[2..][i - 2];
      } else if s[1] == 'e' || s[1] == 'E' {
        NumericTailChars(s[3..], false, true);
        assert forall i | 3 <= i < |s| :: s[i] == s[3..][i - 3];
      }
    }
  }

  // ------------------------------------------------------------ well-formed trees

  /** The state the library keeps a string in: when the flag is off the writer copies it verbatim, so it
      came from a text without escapes, quotes and NULs. */
  predicate GoodText(s: string, encoded: bool) {
    if encoded then IsBytes(s) else '\"' !in s && '\\' !in s && '\0' !in s
  }

  /** A tree the writer may be given: array elements have no name, numbers hold a text that the
      parser takes for a number, and a null has one of its two texts. */
  predicate Printable(n: Node, arrayChild: bool)
    decreases n, 1
  {
    && (arrayChild ==> n.name == "")
    && GoodText(n.name, n.nameEncoded)
    && PrintableValue(n.value)
  }

  predicate PrintableValue(v: Value)
    decreases v, 0
  {
    match v
    case Null(t) => t == "" || t == "null"
    case Bool(_) => true
    case Number(t) => IsNumeric(t) && '\0' !in t
    case Str(s, e) => GoodText(s, e)
    case Array(cs) => AllPrintable(cs, true)
    case Object(cs) => AllPrintable(cs, false)
  }

  predicate AllPrintable(cs: seq<Node>, arrayChild: bool)
    decreases cs, 0
  {
    cs == [] || (Printable(cs[0], arrayChild) && AllPrintable(cs[1..], arrayChild))
  }

  /** internalJSONNode::IsEqualTo, with numerals compared as texts. */
  predicate Same(a: Node, b: Node)
    decreases a, 1
  {
    a.name == b.name && SameValue(a.value, b.value)
  }

  predicate SameValue(a: Value, b: Value)
    decreases a, 0
  {
    match (a, b)
    case (Null(_), Null(_)) => true
    case (Bool(x), Bool(y)) => x == y
    case (Number(x), Number(y)) => x == y
    case (Str(x, _), Str(y, _)) => x == y
    case (Array(x), Array(y)) => SameList(x, y)
    case (Object(x), Object(y)) => SameList(x, y)
    case (_, _) => false
  }

  predicate SameList(a: seq<Node>, b: seq<Node>)
    decreases a, 0
  {
    |a| == |b| && (a == [] || (Same(a[0], b[0]) && SameList(a[1..], b[1..])))
  }

  /** A tree without the encoded flags and the texts of its nulls. */
  function Essence(n: Node): Node
    decreases n, 1
  {
    Node(n.name, false, EssenceOf(n.value))
  }

  function EssenceOf(v: Value): Value
    decreases v, 0
  {
    match v
    case Null(_) => Null("")
    case Str(s, _) => Str(s, false)
    case Array(cs) => Array(EssenceList(cs))
    case Object(cs) => Object(EssenceList(cs))
    case _ => v
  }

  function EssenceList(cs: seq<Node>): (ds: seq<Node>)
    ensures |ds| == |cs|
    decreases cs, 0
  {
    if cs == [] then [] else [Essence(cs[0])] + EssenceList(cs[1..])
  }

  /** Two trees are equal when they differ in nothing but those. */
  lemma {:induction false} SameIff(a: Node, b: Node)
    ensures Same(a, b) <==> Essence(a) == Essence(b)
    decreases a, 1
  {
    SameValueIff(a.value, b.value);
  }

  lemma {:induction false} SameValueIff(a: Value, b: Value)
    ensures SameValue(a, b) <==> EssenceOf(a) == EssenceOf(b)
    decreases a, 0
  {
    match (a, b)
    case (Array(x), Array(y)) => SameListIff(x, y);
    case (Object(x), Object(y)) => SameListIff(x, y);
    case (_, _) =>
  }

  lemma {:induction false} SameListIff(a: seq<Node>, b: seq<Node>)
    ensures SameList(a, b) <==> EssenceList(a) == EssenceList(b)
    decreases a, 0
  {
    if |a| == |b| && a != [] {
      SameIff(a[0], b[0]);
      SameListIff(a[1..], b[1..]);
      var x, y := EssenceList(a), EssenceList(b);
      assert x[0] == Essence(a[0]) && x[1..] == EssenceList(a[1..]);
      assert y[0] == Essence(b[0]) && y[1..] == EssenceList(b[1..]);
    }
  }
}
