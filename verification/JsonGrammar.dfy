/**
 The language of the validator.
 */
module JsonGrammar {
  import opened JsonText
  import opened JsonNode
  import opened JsonValidator
  import opened JsonNumerals

  /** A syntax tree. An element or the value of a member may be empty. Of a member behind a comma the validator does not
      look at the character in front of the name. */
  datatype Form =
    | Empty
    | Quoted(body: string)
    | Numeral(text: string)
    | Word(text: string)
    | List(items: seq<Form>)
    | Record(fields: seq<Field>)

  datatype Field = Field(mark: char, name: string, value: Form)

  function TextOf(f: Form): string
    decreases f, 0
  {
    match f
    case Empty => ""
    case Quoted(body) => "\"" + (body + "\"")
    case Numeral(text) => text
    case Word(text) => text
    case List(items) => "[" + (ItemsText(items) + "]")
    case Record(fields) => "{" + (FieldsText(fields) + "}")
  }

  function ItemsText(items: seq<Form>): string
    decreases items, 0
  {
    if items == [] then ""
    else TextOf(items[0]) + (if |items| > 1 then "," + ItemsText(items[1..]) else "")
  }

  function FieldsText(fields: seq<Field>): string
    decreases fields, 0
  {
    if fields == [] then ""
    else FieldText(fields[0]) + (if |fields| > 1 then "," + FieldsText(fields[1..]) else "")
  }

  function FieldText(f: Field): string
    decreases f, 1
  {
    [f.mark] + (f.name + ("\":" + TextOf(f.value)))
  }

  /** Containers inside one another. */
  function Height(f: Form): nat
    decreases f, 0
  {
    match f
    case List(items) => 1 + ItemsHeight(items)
    case Record(fields) => 1 + FieldsHeight(fields)
    case _ => 0
  }

  function ItemsHeight(items: seq<Form>): nat
    decreases items, 0
  {
    if items == [] then 0 else Higher(Height(items[0]), ItemsHeight(items[1..]))
  }

  function FieldsHeight(fields: seq<Field>): nat
    decreases fields, 0
  {
    if fields == [] then 0 else Higher(Height(fields[0].value), FieldsHeight(fields[1..]))
  }

  function Higher(a: nat, b: nat): nat {
    if a >= b then a else b
  }

  // ------------------------------------------------------------ the leaves

  /** How many characters of a string body stand for the first character of the string: none when it is not good. */
  function Unit(b: string): (n: nat)
    ensures n <= |b|
  {
    if b == "" || b[0] in {'\"', '\0'} then 0
    else if b[0] != '\\' then 1
    else if |b| >= 2 && b[1] in {'\"', '\\', '/', 'b', 'f', 'n', 'r', 't'} then 2
    else if |b| >= 6 && b[1] == 'u' && forall i | 2 <= i < 6 :: HexChar(b[i]) then 6
    else if |b| >= 4 && b[1] == 'x' && forall i | 2 <= i < 4 :: HexChar(b[i]) then 4
    else 0
  }

  /** Plain characters, the escapes of JSON, and \x with two digits. */
  predicate StringForm(b: string)
    decreases |b|
  {
    b == "" || (Unit(b) > 0 && StringForm(b[Unit(b)..]))
  }

  /** Nothing, or an e with a digit or a sign and further digits. */
  predicate LooseExponent(s: string) {
    s == "" || (s[0] in {'e', 'E'} && |s| > 1 && (Digit(s[1]) || Sign(s[1])) && Digits(s[2..]))
  }

  predicate TailAt(s: string, i: nat, j: nat) {
    i <= j <= |s| && Digits(s[..i]) && Fraction(s[i..j]) && LooseExponent(s[j..])
  }

  /** What the validator takes for a number: an optional sign or a digit, with any digits, an optional fraction and an
      optional exponent behind it; a point with digits and an exponent; a zero with x and hexadecimal digits. */
  ghost predicate NumberForm(t: string) {
    || (t != "" && (Sign(t[0]) || Digit(t[0])) && exists i, j :: TailAt(t[1..], i, j))
    || (t != "" && t[0] == '.' && exists j :: TailAt(t, 0, j))
    || (|t| >= 2 && t[..2] == "0x" && forall k | 2 <= k < |t| :: HexChar(t[k]))
  }

  /** The word in upper or lower case letters. */
  predicate Spelled(t: string, word: string)
    requires forall i | 0 <= i < |word| :: 'a' <= word[i] <= 'z'
  {
    |t| == |word| && forall i | 0 <= i < |t| :: Letter(t[i], word[i])
  }

  ghost predicate Good(f: Form)
    decreases f, 0
  {
    match f
    case Empty => true
    case Quoted(body) => StringForm(body)
    case Numeral(text) => NumberForm(text)
    case Word(text) => Spelled(text, "true") || Spelled(text, "false") || Spelled(text, "null")
    case List(items) => forall i | 0 <= i < |items| :: Good(items[i])
    case Record(fields) =>
      && (fields != [] ==> fields[0].mark == '\"')
      && forall i | 0 <= i < |fields| :: GoodField(fields[i])
  }

  ghost predicate GoodField(f: Field)
    decreases f, 1
  {
    f.mark != '\0' && StringForm(f.name) && Good(f.value)
  }

  // ------------------------------------------------------------ strings

  lemma StringStep(s: string)
    requires s != "" && s[0] != '\"'
    ensures if Unit(s) > 0 then ValidString(s) == ValidString(s[Unit(s)..]) else !ValidString(s).Passes?
  {
    if s[0] == '\\' {
      EscapeStep(s);
    }
  }

  lemma EscapeStep(s: string)
    requires At(s) == '\\'
    ensures if Unit(s) > 0 then ValidEscape(s) == ValidString(s[Unit(s)..]) else !ValidEscape(s).Passes?
  {
    if |s| > 1 {
      assert At(s[1..]) == s[1];
    }
  }

  lemma UnitOfPrefix(b: string, more: string)
    requires b != "" && (Unit(b) > 0 || (Unit(b + more) > 0 && Unit(b + more) <= |b|))
    ensures Unit(b + more) == Unit(b)
  {
    var s := b + more;
    assert forall i | 0 <= i < |b| :: s[i] == b[i];
  }

  lemma {:induction false} StringPasses(b: string, rest: string)
    requires StringForm(b)
    ensures ValidString(b + ("\"" + rest)) == Passes(rest)
    decreases |b|
  {
    var s := b + ("\"" + rest);
    if b == "" {
      assert s == "\"" + rest && s[1..] == rest;
    } else {
      var n := Unit(b);
      UnitOfPrefix(b, "\"" + rest);
      StringStep(s);
      StringPasses(b[n..], rest);
      assert s[n..] == b[n..] + ("\"" + rest);
    }
  }

  /** A string ends at its first quote that is not part of an escape. */
  lemma {:induction false} StringSound(s: string) returns (b: string)
    requires ValidString(s).Passes?
    ensures StringForm(b) && s == b + ("\"" + ValidString(s).rest)
    decreases |s|
  {
    if At(s) == '\"' {
      b := "";
    } else {
      StringStep(s);
      var n := Unit(s);
      var c := StringSound(s[n..]);
      b := s[..n] + c;
      UnitInFront(s, n, c, "\"" + ValidString(s).rest);
    }
  }

  lemma UnitInFront(s: string, n: nat, c: string, end: string)
    requires 0 < n == Unit(s) && s[n..] == c + end && StringForm(c)
    ensures s == s[..n] + c + end && StringForm(s[..n] + c)
  {
    var b := s[..n] + c;
    assert s == s[..n] + s[n..] == b + end;
    UnitOfPrefix(b, end);
    assert b[n..] == c;
  }

  // ------------------------------------------------------------ numbers

  lemma {:induction false} DigitsPass(t: string, decimal: bool, scientific: bool, rest: string)
    requires Digits(t)
    ensures NumberTail(t + rest, decimal, scientific) == NumberTail(rest, decimal, scientific)
  {
    if t == "" {
      assert t + rest == rest;
    } else {
      assert (t + rest)[1..] == t[1..] + rest && (t + rest)[0] == t[0];
      DigitsPass(t[1..], decimal, scientific, rest);
    }
  }

  lemma ExponentPasses(t: string, decimal: bool, rest: string)
    requires LooseExponent(t) && Delimited(rest)
    ensures NumberTail(t + rest, decimal, false) == Passes(rest)
  {
    if t == "" {
      assert t + rest == rest;
    } else {
      ExponentStep(t, decimal, rest);
      DigitsPass(t[2..], decimal, true, rest);
    }
  }

  lemma TailPasses(t: string, i: nat, j: nat, decimal: bool, rest: string)
    requires TailAt(t, i, j) && (decimal ==> j == i) && Delimited(rest)
    ensures NumberTail(t + rest, decimal, false) == Passes(rest)
  {
    var (a, b, c) := (t[..i], t[i..j], t[j..]);
    assert t + rest == a + (b + (c + rest));
    DigitsPass(a, decimal, false, b + (c + rest));
    if b == "" {
      assert b + (c + rest) == c + rest;
      ExponentPasses(c, decimal, rest);
    } else {
      assert (b + (c + rest))[1..] == b[1..] + (c + rest);
      DigitsPass(b[1..], true, false, c + rest);
      ExponentPasses(c, true, rest);
    }
  }

  lemma NumberPasses(t: string, rest: string)
    requires NumberForm(t) && Delimited(rest)
    ensures ValidNumber(t + rest) == Passes(rest)
  {
    if |t| >= 2 && t[..2] == "0x" && forall k | 2 <= k < |t| :: HexChar(t[k]) {
      HexPasses(t, rest);
    } else if t[0] == '.' {
      var j: nat :| TailAt(t, 0, j);
      PointPasses(t, j, rest);
    } else {
      var i: nat, j: nat :| TailAt(t[1..], i, j);
      PlainPasses(t, i, j, rest);
    }
  }

  lemma HexPasses(t: string, rest: string)
    requires |t| >= 2 && t[..2] == "0x" && Delimited(rest) && forall k | 2 <= k < |t| :: HexChar(t[k])
    ensures ValidNumber(t + rest) == Passes(rest)
  {
    var s := t + rest;
    assert t[..2][0] == '0' && t[..2][1] == 'x';
    assert s[0] == '0' && s[1..][0] == 'x' && s[2..] == t[2..] + rest;
    HexRun(t[2..], rest);
  }

  lemma PointPasses(t: string, j: nat, rest: string)
    requires t != "" && t[0] == '.' && TailAt(t, 0, j) && Delimited(rest)
    ensures ValidNumber(t + rest) == Passes(rest)
  {
    BehindPoint(t, j);
    TailPasses(t[1..], j - 1, j - 1, true, rest);
    assert (t + rest)[1..] == t[1..] + rest && (t + rest)[0] == '.';
  }

  lemma BehindPoint(t: string, j: nat)
    requires t != "" && t[0] == '.' && TailAt(t, 0, j)
    ensures j > 0 && TailAt(t[1..], j - 1, j - 1)
  {
    assert t[0..] == t;
    if j > 0 {
      assert t[1..][..j - 1] == t[0..j][1..] && t[1..][j - 1..] == t[j..] && t[1..][j - 1..j - 1] == "";
    }
  }

  lemma PlainPasses(t: string, i: nat, j: nat, rest: string)
    requires t != "" && (Sign(t[0]) || Digit(t[0])) && TailAt(t[1..], i, j) && Delimited(rest)
    ensures ValidNumber(t + rest) == Passes(rest)
  {
    var u := t[1..] + rest;
    assert (t + rest)[1..] == u && (t + rest)[0] == t[0];
    TailPasses(t[1..], i, j, false, rest);
    if t[0] == '0' {
      assert t + rest == "0" + u;
      NoX(t[1..], i, j, rest);
      ZeroStep(u);
    }
  }

  lemma NoX(t: string, i: nat, j: nat, rest: string)
    requires TailAt(t, i, j) && Delimited(rest)
    ensures At(t + rest) != 'x'
  {
    if t != "" {
      assert i > 0 ==> t[..i][0] == t[0];
      assert i == 0 && j > 0 ==> t[i..j][0] == t[0];
      assert j == 0 ==> t[j..] == t;
    }
  }

  /** Behind a zero the validator looks ahead for a point, an exponent or a digit. */
  lemma ZeroStep(s: string)
    requires At(s) != 'x'
    ensures ValidNumber("0" + s) == NumberTail(s, false, false)
  {
    var t := "0" + s;
    assert t[1..] == s;
    if s != "" {
      assert t[2..] == s[1..];
    }
    if |s| > 1 {
      assert t[3..] == s[2..];
    }
  }

  /** The digits in front. */
  lemma {:induction false} LeadingDigits(s: string) returns (n: nat)
    ensures n <= |s| && Digits(s[..n]) && !Digit(At(s[n..]))
  {
    n := 0;
    while n < |s| && Digit(s[n])
      invariant n <= |s| && Digits(s[..n])
    {
      n := n + 1;
    }
  }

  lemma DigitsInFront(s: string, i: nat, decimal: bool)
    requires i <= |s| && Digits(s[..i])
    ensures NumberTail(s, decimal, false) == NumberTail(s[i..], decimal, false)
  {
    DigitsPass(s[..i], decimal, false, s[i..]);
    assert s == s[..i] + s[i..];
  }

  lemma ExponentSound(s: string, decimal: bool) returns (n: nat)
    requires NumberTail(s, decimal, false).Passes? && !Digit(At(s)) && At(s) != '.'
    ensures n <= |s| && LooseExponent(s[..n]) && NumberTail(s, decimal, false) == Passes(s[n..])
  {
    if At(s) == 'e' || At(s) == 'E' {
      var k := LeadingDigits(s[2..]);
      DigitsPass(s[2..][..k], decimal, true, s[2..][k..]);
      assert s[2..] == s[2..][..k] + s[2..][k..];
      n := k + 2;
      assert s[..n][2..] == s[2..][..k] && s[n..] == s[2..][k..];
      NumberEnds(s[n..], decimal);
    } else {
      n := 0;
      assert s[..0] == "" && s[0..] == s;
    }
  }

  lemma NumberEnds(s: string, decimal: bool)
    requires NumberTail(s, decimal, true).Passes? && !Digit(At(s))
    ensures NumberTail(s, decimal, true) == Passes(s)
  {
  }

  lemma PointSound(t: string) returns (k: nat, m: nat)
    requires At(t) == '.' && NumberTail(t, false, false).Passes?
    ensures 0 < k && k + m <= |t| && Fraction(t[..k]) && LooseExponent(t[k..k + m])
    ensures NumberTail(t, false, false) == Passes(t[k + m..])
  {
    var d := LeadingDigits(t[1..]);
    var u := t[1..][d..];
    DigitsInFront(t[1..], d, true);
    PointEnds(u);
    k := d + 1;
    m := ExponentSound(u, true);
    PointSlices(t, d, m);
  }

  lemma PointSlices(t: string, d: nat, m: nat)
    requires 1 + d + m <= |t|
    ensures t[..d + 1][1..] == t[1..][..d] && t[1..][d..] == t[d + 1..]
    ensures t[d + 1..d + 1 + m] == t[1..][d..][..m] && t[d + 1 + m..] == t[1..][d..][m..]
  {
  }

  lemma PointEnds(s: string)
    requires NumberTail(s, true, false).Passes?
    ensures At(s) != '.'
  {
  }

  lemma TailOf(s: string, i: nat, j: nat, n: nat)
    requires i <= j <= n <= |s| && Digits(s[..i]) && Fraction(s[i..j]) && LooseExponent(s[j..n])
    ensures TailAt(s[..n], i, j)
  {
    assert s[..n][..i] == s[..i] && s[..n][i..j] == s[i..j] && s[..n][j..] == s[j..n];
  }

  lemma AfterDigits(t: string, decimal: bool) returns (k: nat, m: nat)
    requires NumberTail(t, decimal, false).Passes? && !Digit(At(t))
    ensures k + m <= |t| && Fraction(t[..k]) && LooseExponent(t[k..k + m]) && (decimal ==> k == 0)
    ensures NumberTail(t, decimal, false) == Passes(t[k + m..])
  {
    if At(t) == '.' {
      k, m := PointSound(t);
    } else {
      k := 0;
      m := ExponentSound(t, decimal);
      assert t[..0] == "" && t[0..m] == t[..m];
    }
  }

  lemma TailSlices(s: string, i: nat, k: nat, m: nat)
    requires i + k + m <= |s|
    ensures s[i..i + k] == s[i..][..k] && s[i + k..i + k + m] == s[i..][k..k + m] && s[i + k + m..] == s[i..][k + m..]
  {
  }

  lemma TailSound(s: string, decimal: bool) returns (i: nat, j: nat, n: nat)
    requires NumberTail(s, decimal, false).Passes?
    ensures n <= |s| && TailAt(s[..n], i, j) && (decimal ==> i == j)
    ensures NumberTail(s, decimal, false) == Passes(s[n..])
  {
    i := LeadingDigits(s);
    var t := s[i..];
    DigitsInFront(s, i, decimal);
    var k, m := AfterDigits(t, decimal);
    j, n := i + k, i + k + m;
    TailSlices(s, i, k, m);
    TailOf(s, i, j, n);
  }

  lemma {:induction false} SkipHexSound(s: string) returns (n: nat)
    ensures n <= |s| && SkipHex(s) == s[n..] && forall i | 0 <= i < n :: HexChar(s[i])
  {
    if s != "" && HexChar(s[0]) {
      var k := SkipHexSound(s[1..]);
      n := k + 1;
      forall i | 0 <= i < n
        ensures HexChar(s[i])
      {
        assert i > 0 ==> s[i] == s[1..][i - 1];
      }
    } else {
      n := 0;
    }
  }

  lemma NumberSound(s: string) returns (t: string)
    requires ValidNumber(s).Passes?
    ensures NumberForm(t) && s == t + ValidNumber(s).rest
  {
    if s[0] == '0' && At(s[1..]) == 'x' {
      t := HexSound(s);
    } else if s[0] == '.' {
      t := PointNumberSound(s);
    } else {
      t := PlainSound(s);
    }
  }

  lemma HexSound(s: string) returns (t: string)
    requires s != "" && s[0] == '0' && At(s[1..]) == 'x'
    ensures NumberForm(t) && ValidNumber(s).Passes? && s == t + ValidNumber(s).rest
  {
    var n := SkipHexSound(s[2..]);
    t := s[..n + 2];
    assert forall i | 2 <= i < |t| :: t[i] == s[2..][i - 2];
    assert t[..2] == [s[0], s[1]] && s[1..][0] == s[1] && s[2..][n..] == s[n + 2..];
  }

  lemma PointNumberSound(s: string) returns (t: string)
    requires s != "" && s[0] == '.' && ValidNumber(s).Passes?
    ensures NumberForm(t) && s == t + ValidNumber(s).rest
  {
    var i, j, n := TailSound(s[1..], true);
    t := s[..n + 1];
    PointInFront(s[1..][..n], i);
    assert t == "." + s[1..][..n] && s[1..][n..] == s[n + 1..];
  }

  lemma PlainSound(s: string) returns (t: string)
    requires ValidNumber(s).Passes? && s[0] != '.' && (s[0] == '0' ==> At(s[1..]) != 'x')
    ensures NumberForm(t) && s == t + ValidNumber(s).rest
  {
    if s[0] == '0' {
      ZeroStep(s[1..]);
      assert s == "0" + s[1..];
    }
    var i, j, n := TailSound(s[1..], false);
    t := s[..n + 1];
    assert t[1..] == s[1..][..n] && s[1..][n..] == s[n + 1..];
  }

  lemma PointInFront(t: string, i: nat)
    requires TailAt(t, i, i)
    ensures TailAt("." + t, 0, i + 1)
  {
    var s := "." + t;
    assert s[0..i + 1][1..] == t[..i] && s[i + 1..] == t[i..] && s[..0] == "";
  }

  // ------------------------------------------------------------ trees

  /** What is good and not empty starts with a character that ends nothing. */
  lemma FirstOfForm(f: Form)
    requires Good(f)
    ensures if f.Empty? then TextOf(f) == "" else TextOf(f) != "" && TextOf(f)[0] !in {',', ']', '}', '\0'}
  {
    match f
    case Numeral(text) => FirstOfNumber(text);
    case _ =>
  }

  /** A good form is accepted as a whole in front of a delimiter, when its nesting is not too deep. */
  lemma {:induction false} MemberPasses(f: Form, rest: string, depth: nat)
    requires Good(f) && depth + Height(f) <= 128 && Delimited(rest)
    ensures ValidMember(TextOf(f) + rest, depth) == Passes(rest)
    decreases f, 0
  {
    match f
    case Empty => assert TextOf(f) + rest == rest;
    case Quoted(body) => QuotedPasses(body, rest, depth);
    case Numeral(text) => NumeralPasses(text, rest, depth);
    case Word(text) => WordPasses(text, rest, depth);
    case List(items) =>
      ItemsPass(items, rest, depth + 1);
      EnclosedPasses("[", ItemsText(items), "]", rest, depth);
    case Record(fields) =>
      RecordPasses(fields, rest, depth + 1);
      EnclosedPasses("{", FieldsText(fields), "}", rest, depth);
  }

  lemma QuotedPasses(body: string, rest: string, depth: nat)
    requires StringForm(body)
    ensures ValidMember("\"" + (body + "\"") + rest, depth) == Passes(rest)
  {
    StringPasses(body, rest);
    assert ("\"" + (body + "\"") + rest)[1..] == body + ("\"" + rest);
  }

  lemma NumeralPasses(text: string, rest: string, depth: nat)
    requires NumberForm(text) && Delimited(rest)
    ensures ValidMember(text + rest, depth) == Passes(rest)
  {
    NumberPasses(text, rest);
    FirstOfNumber(text);
    NumberMember(text + rest, depth);
  }

  lemma NumberMember(s: string, depth: nat)
    requires s != "" && (Sign(s[0]) || Digit(s[0]) || s[0] == '.')
    ensures ValidMember(s, depth) == ValidNumber(s)
  {
  }

  lemma FirstOfNumber(t: string)
    requires NumberForm(t)
    ensures t != "" && (Sign(t[0]) || Digit(t[0]) || t[0] == '.')
  {
    if |t| >= 2 && t[..2] == "0x" {
      assert t[..2][0] == t[0];
    }
  }

  lemma EnclosedPasses(open: string, inner: string, close: string, rest: string, depth: nat)
    requires depth < 128
    requires open == "[" || open == "{"
    requires (if open == "[" then ValidArray(inner + (close + rest), depth + 1)
              else ValidObject(inner + (close + rest), depth + 1)) == Passes(rest)
    ensures ValidMember(open + (inner + close) + rest, depth) == Passes(rest)
  {
    var s := open + (inner + close) + rest;
    assert s[0] == open[0] && s[1..] == inner + (close + rest);
  }

  lemma WordPasses(t: string, rest: string, depth: nat)
    requires Spelled(t, "true") || Spelled(t, "false") || Spelled(t, "null")
    ensures ValidMember(t + rest, depth) == Passes(rest)
  {
    var s := t + rest;
    assert s[|t|..] == rest && forall i | 0 <= i < |t| :: s[i] == t[i];
  }

  lemma {:induction false} ItemsPass(items: seq<Form>, rest: string, depth: nat)
    requires (forall i | 0 <= i < |items| :: Good(items[i])) && depth + ItemsHeight(items) <= 128
    ensures ValidArray(ItemsText(items) + ("]" + rest), depth) == Passes(rest)
    decreases items, 1
  {
    if items == [] || (|items| == 1 && items[0].Empty?) {
      assert ItemsText(items) + ("]" + rest) == "]" + rest && ("]" + rest)[1..] == rest;
    } else {
      var value, more := TextOf(items[0]), BehindItem(items, rest);
      FirstOfForm(items[0]);
      BehindItemIs(items, rest);
      MemberPasses(items[0], more, depth);
      OneItemPasses(value, more, depth);
      if |items| > 1 {
        ItemsPass(items[1..], rest, depth);
        FirstOfItems(items[1..], rest);
      }
    }
  }

  /** What stands behind the first item. */
  function BehindItem(items: seq<Form>, rest: string): (more: string)
    requires items != []
    ensures Delimited(more)
  {
    if |items| > 1 then "," + (ItemsText(items[1..]) + ("]" + rest)) else "]" + rest
  }

  lemma BehindItemIs(items: seq<Form>, rest: string)
    requires items != []
    ensures ItemsText(items) + ("]" + rest) == TextOf(items[0]) + BehindItem(items, rest)
    ensures BehindItem(items, rest)[1..] == if |items| > 1 then ItemsText(items[1..]) + ("]" + rest) else rest
  {
    if |items| > 1 {
      CommaBetween(TextOf(items[0]), ItemsText(items[1..]), "]" + rest);
      Behind(",", ItemsText(items[1..]) + ("]" + rest));
    } else {
      Behind("]", rest);
      assert TextOf(items[0]) + "" == TextOf(items[0]);
    }
  }

  lemma Behind(c: string, t: string)
    requires |c| == 1
    ensures (c + t)[1..] == t
  {
  }

  lemma OneItemPasses(value: string, more: string, depth: nat)
    requires At(value + more) != ']' && ValidMember(value + more, depth) == Passes(more)
    ensures ValidArray(value + more, depth) == AfterElement(more, depth)
  {
  }

  lemma FirstOfItems(items: seq<Form>, rest: string)
    requires items != [] && Good(items[0])
    ensures At(ItemsText(items) + ("]" + rest)) != '\0'
  {
    FirstOfForm(items[0]);
  }

  lemma {:induction false} RecordPasses(fields: seq<Field>, rest: string, depth: nat)
    requires Good(Record(fields)) && depth + FieldsHeight(fields) <= 128
    ensures ValidObject(FieldsText(fields) + ("}" + rest), depth) == Passes(rest)
    decreases fields, 2
  {
    var s := FieldsText(fields) + ("}" + rest);
    if fields == [] {
      assert s == "}" + rest && s[1..] == rest;
    } else {
      FieldsPass(fields, rest, depth);
    }
  }

  lemma {:induction false} FieldsPass(fields: seq<Field>, rest: string, depth: nat)
    requires fields != [] && forall i | 0 <= i < |fields| :: GoodField(fields[i])
    requires depth + FieldsHeight(fields) <= 128
    ensures ValidNamedObject(FieldsText(fields) + ("}" + rest), depth) == Passes(rest)
    decreases fields, 1
  {
    var f := fields[0];
    var more := if |fields| > 1 then "," + (FieldsText(fields[1..]) + ("}" + rest)) else "}" + rest;
    FirstField(fields, "}" + rest);
    MemberPasses(f.value, more, depth);
    OneFieldPasses(f.mark, f.name, TextOf(f.value), more, depth);
    if |fields| > 1 {
      FieldsPass(fields[1..], rest, depth);
      assert more[1..] == FieldsText(fields[1..]) + ("}" + rest);
    } else {
      assert more[1..] == rest;
    }
  }

  lemma OneFieldPasses(mark: char, name: string, value: string, more: string, depth: nat)
    requires StringForm(name) && ValidMember(value + more, depth) == Passes(more)
    ensures ValidNamedObject([mark] + (name + ("\"" + (":" + (value + more)))), depth) == AfterMember(more, depth)
  {
    var t := ":" + (value + more);
    var s := [mark] + (name + ("\"" + t));
    StringPasses(name, t);
    assert s[1..] == name + ("\"" + t) && t[1..] == value + more;
  }

  lemma FirstField(fields: seq<Field>, rest: string)
    requires fields != []
    ensures var f, more := fields[0], if |fields| > 1 then "," + (FieldsText(fields[1..]) + rest) else rest;
      FieldsText(fields) + rest == [f.mark] + (f.name + ("\"" + (":" + (TextOf(f.value) + more))))
  {
    var f := fields[0];
    var after := if |fields| > 1 then "," + FieldsText(fields[1..]) else "";
    var more := if |fields| > 1 then "," + (FieldsText(fields[1..]) + rest) else rest;
    assert after + rest == more;
    assert FieldsText(fields) == FieldText(f) + after;
    FieldPieces(f.mark, f.name, TextOf(f.value), after, rest);
  }

  lemma FieldPieces(mark: char, name: string, value: string, after: string, rest: string)
    ensures [mark] + (name + ("\":" + value)) + after + rest ==
            [mark] + (name + ("\"" + (":" + (value + (after + rest)))))
  {
    assert "\":" == "\"" + ":";
  }

  // ------------------------------------------------------------ what passes

  /** What passes is a good form, and is not nested too deep. */
  lemma {:induction false} MemberSound(s: string, depth: nat) returns (f: Form)
    requires ValidMember(s, depth).Passes? && '\0' !in s && depth <= 128
    ensures Good(f) && depth + Height(f) <= 128 && s == TextOf(f) + ValidMember(s, depth).rest
    decreases |s|, 1
  {
    var c, r := At(s), ValidMember(s, depth).rest;
    if c !in {'{', '['} {
      f := LeafSound(s, depth);
    } else if c == '{' {
      var fields := RecordSound(s[1..], depth + 1);
      f := Record(fields);
      Enclosed(s, "{", FieldsText(fields), "}", r);
    } else {
      var items := ArraySound(s[1..], depth + 1);
      f := List(items);
      Enclosed(s, "[", ItemsText(items), "]", r);
    }
  }

  lemma LeafSound(s: string, depth: nat) returns (f: Form)
    requires ValidMember(s, depth).Passes? && At(s) !in {'{', '['}
    ensures Good(f) && Height(f) == 0 && s == TextOf(f) + ValidMember(s, depth).rest
  {
    var c := At(s);
    if c == '\"' {
      var b := StringSound(s[1..]);
      f := Quoted(b);
      Enclosed(s, "\"", b, "\"", ValidMember(s, depth).rest);
    } else if Letter(c, 't') || Letter(c, 'f') || Letter(c, 'n') {
      f := WordSound(s, depth);
    } else if c in {'}', ']', ','} {
      f := Empty;
    } else {
      var t := NumberSound(s);
      f := Numeral(t);
    }
  }

  lemma Enclosed(s: string, open: string, inner: string, close: string, rest: string)
    requires |open| == 1 && s != "" && s[0] == open[0] && s[1..] == inner + (close + rest)
    ensures s == open + (inner + close) + rest
  {
    assert s == open + s[1..];
  }

  lemma WordSound(s: string, depth: nat) returns (f: Form)
    requires ValidMember(s, depth).Passes? && (Letter(At(s), 't') || Letter(At(s), 'f') || Letter(At(s), 'n'))
    ensures f.Word? && Good(f) && s == TextOf(f) + ValidMember(s, depth).rest
  {
    var n := |s| - |ValidMember(s, depth).rest|;
    f := Word(s[..n]);
    assert s == s[..n] + s[n..];
    assert Spelled(s[..n], if Letter(At(s), 't') then "true" else if Letter(At(s), 'f') then "false" else "null");
  }

  lemma {:induction false} ArraySound(s: string, depth: nat) returns (items: seq<Form>)
    requires ValidArray(s, depth).Passes? && '\0' !in s && depth <= 128
    ensures (forall i | 0 <= i < |items| :: Good(items[i])) && depth + ItemsHeight(items) <= 128
    ensures s == ItemsText(items) + ("]" + ValidArray(s, depth).rest)
    decreases |s|, 2
  {
    if At(s) == ']' {
      items := [];
      assert s == "]" + s[1..];
    } else {
      var f := MemberSound(s, depth);
      var t := ValidMember(s, depth).rest;
      HeadOf(TextOf(f), t);
      if At(t) == ',' {
        NoNulBehind(s, TextOf(f) + ",", t[1..]);
        var more := ArraySound(t[1..], depth);
        items := OneMoreItem(f, more, "]" + ValidArray(t[1..], depth).rest, depth);
      } else {
        items := [f];
        assert items[1..] == [];
      }
    }
  }

  lemma HeadOf(a: string, t: string)
    requires t != ""
    ensures a + t == a + ([t[0]] + t[1..]) == a + [t[0]] + t[1..]
  {
    assert t == [t[0]] + t[1..];
  }

  lemma NoNulBehind(s: string, a: string, b: string)
    requires '\0' !in s && s == a + b
    ensures '\0' !in b
  {
    assert forall c | c in b :: c in a + b;
  }

  lemma OneMoreItem(f: Form, more: seq<Form>, rest: string, depth: nat) returns (items: seq<Form>)
    requires Good(f) && (forall i | 0 <= i < |more| :: Good(more[i]))
    requires depth + Height(f) <= 128 && depth + ItemsHeight(more) <= 128
    ensures forall i | 0 <= i < |items| :: Good(items[i])
    ensures depth + ItemsHeight(items) <= 128
    ensures TextOf(f) + ("," + (ItemsText(more) + rest)) == ItemsText(items) + rest
  {
    var kids := if more == [] then [Empty] else more;
    AtLeastOne(more);
    items := [f] + kids;
    assert items[1..] == kids;
    CommaBetween(TextOf(f), ItemsText(more), rest);
  }

  lemma AtLeastOne(more: seq<Form>)
    ensures ItemsText(if more == [] then [Empty] else more) == ItemsText(more)
    ensures ItemsHeight(if more == [] then [Empty] else more) == ItemsHeight(more)
  {
    assert [Empty][1..] == [];
  }

  lemma CommaBetween(a: string, b: string, rest: string)
    ensures a + ("," + (b + rest)) == a + ("," + b) + rest
  {
  }

  lemma {:induction false} RecordSound(s: string, depth: nat) returns (fields: seq<Field>)
    requires ValidObject(s, depth).Passes? && '\0' !in s && depth <= 128
    ensures Good(Record(fields)) && depth + FieldsHeight(fields) <= 128
    ensures s == FieldsText(fields) + ("}" + ValidObject(s, depth).rest)
    decreases |s|, 3
  {
    if At(s) == '\"' {
      fields := NamedSound(s, depth);
    } else {
      fields := [];
      assert s == ['}'] + s[1..];
    }
  }

  lemma {:induction false} NamedSound(s: string, depth: nat) returns (fields: seq<Field>)
    requires ValidNamedObject(s, depth).Passes? && '\0' !in s && depth <= 128
    ensures fields != [] && fields[0].mark == s[0] && forall i | 0 <= i < |fields| :: GoodField(fields[i])
    ensures depth + FieldsHeight(fields) <= 128 && s == FieldsText(fields) + ("}" + ValidNamedObject(s, depth).rest)
    decreases |s|, 2
  {
    var name := StringSound(s[1..]);
    var t := ValidString(s[1..]).rest;
    NameOf(s, name, t);
    NoNulBehind(s, [s[0]] + (name + "\":"), t[1..]);
    var f := MemberSound(t[1..], depth);
    var u := ValidMember(t[1..], depth).rest;
    NoNulBehind(t[1..], TextOf(f), u);
    var more := MoreSound(u, depth);
    fields := OneMoreField(Field(s[0], name, f), more, "}" + AfterMember(u, depth).rest, depth);
  }

  lemma NameOf(s: string, name: string, t: string)
    requires s != "" && s[1..] == name + ("\"" + t) && t != "" && t[0] == ':'
    ensures s == [s[0]] + (name + "\":") + t[1..] == [s[0]] + (name + ("\"" + (":" + t[1..])))
  {
    assert s == [s[0]] + s[1..] && t == ":" + t[1..];
  }

  lemma {:induction false} MoreSound(u: string, depth: nat) returns (more: seq<Field>)
    requires AfterMember(u, depth).Passes? && '\0' !in u && depth <= 128
    ensures (forall i | 0 <= i < |more| :: GoodField(more[i])) && depth + FieldsHeight(more) <= 128
    ensures var end := "}" + AfterMember(u, depth).rest; u == if more == [] then end else "," + (FieldsText(more) + end)
    decreases |u|, 3
  {
    assert u == [u[0]] + u[1..];
    if At(u) == ',' {
      more := NamedSound(u[1..], depth);
    } else {
      more := [];
    }
  }

  lemma OneMoreField(f: Field, more: seq<Field>, rest: string, depth: nat) returns (fields: seq<Field>)
    requires GoodField(f) && (forall i | 0 <= i < |more| :: GoodField(more[i]))
    requires depth + Height(f.value) <= 128 && depth + FieldsHeight(more) <= 128
    ensures fields == [f] + more && forall i | 0 <= i < |fields| :: GoodField(fields[i])
    ensures depth + FieldsHeight(fields) <= 128
    ensures var after := if more == [] then rest else "," + (FieldsText(more) + rest);
      FieldsText(fields) + rest == [f.mark] + (f.name + ("\"" + (":" + (TextOf(f.value) + after))))
  {
    fields := [f] + more;
    assert fields[1..] == more;
    FirstField(fields, rest);
  }

  /** The validator accepts exactly the texts of the good lists and records that are nested at most 128 deep. */
  lemma ValidIff(s: string)
    requires '\0' !in s
    ensures IsValidRoot(s) <==>
            exists f: Form :: Good(f) && (f.List? || f.Record?) && Height(f) <= 128 && TextOf(f) == s
  {
    if IsValidRoot(s) {
      var f := RootSound(s);
    }
    forall f: Form | Good(f) && (f.List? || f.Record?) && Height(f) <= 128 && TextOf(f) == s
      ensures IsValidRoot(s)
    {
      RootPasses(f);
    }
  }

  lemma RootSound(s: string) returns (f: Form)
    requires IsValidRoot(s) && '\0' !in s
    ensures Good(f) && (f.List? || f.Record?) && Height(f) <= 128 && TextOf(f) == s
  {
    assert s == [s[0]] + s[1..];
    if s[0] == '{' {
      var fields := RecordSound(s[1..], 1);
      f := Record(fields);
    } else {
      var items := ArraySound(s[1..], 1);
      f := List(items);
    }
    assert ValidRoot(s).rest == "" by {
      assert forall c | c in ValidRoot(s).rest :: c in s;
    }
  }

  lemma RootPasses(f: Form)
    requires Good(f) && (f.List? || f.Record?) && Height(f) <= 128
    ensures IsValidRoot(TextOf(f))
  {
    var s := TextOf(f);
    if f.List? {
      ItemsPass(f.items, "", 1);
      assert s[1..] == ItemsText(f.items) + ("]" + "");
    } else {
      RecordPasses(f.fields, "", 1);
      assert s[1..] == FieldsText(f.fields) + ("}" + "");
    }
  }
}
