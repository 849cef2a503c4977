/**
 Which texts the parser takes for a number.
 */
module JsonNumerals {
  import opened Wrappers
  import opened JsonNode
  import opened JsonWriter
  import opened JsonParser
  import opened JsonRoundTrip

  predicate Digits(s: string) {
    forall i | 0 <= i < |s| :: Digit(s[i])
  }

  predicate Sign(c: char) {
    c == '+' || c == '-'
  }

  /** Nothing, or an e with an optional sign and at least one digit. */
  predicate Exponent(s: string) {
    s == "" ||
    (&& s[0] in {'e', 'E'} && |s| > 1
     && if Sign(s[1]) then |s| > 2 && Digits(s[2..]) else Digits(s[1..]))
  }

  /** Nothing, or a point with any number of digits. */
  predicate Fraction(s: string) {
    s == "" || (s[0] == '.' && Digits(s[1..]))
  }

  /** Digits up to i, a fraction up to j, and an exponent. */
  predicate DecimalAt(s: string, i: nat, j: nat) {
    i <= j <= |s| && Digits(s[..i]) && Fraction(s[i..j]) && Exponent(s[j..])
  }

  /** A numeral of JSON, section 6 of RFC 8259: an optional minus, an integer part that starts with a zero only when it
      is zero, an optional point with digits, and an optional exponent. */
  ghost predicate JsonNumeral(s: string) {
    if s != "" && s[0] == '-' then Unsigned(s[1..]) else Unsigned(s)
  }

  ghost predicate Unsigned(s: string) {
    exists i, j :: DecimalAt(s, i, j) && 0 < i && (s[0] == '0' ==> i == 1) && j != i + 1
  }

  /** What is a number for the parser besides: fractions without digits, leading zeros behind a sign, a leading plus, a
      leading point, hexadecimal and octal texts, and an exponent of zero that has a sign only. */
  ghost predicate Accepted(s: string) {
    || (exists i, j :: DecimalAt(s, i, j) && 0 < i && (s[0] == '0' ==> i == 1))
    || (s != "" && Sign(s[0]) && exists i, j :: DecimalAt(s[1..], i, j) && 0 < i)
    || (s != "" && s[0] == '.' && exists j :: DecimalAt(s, 0, j))
    || (|s| >= 2 && s[..2] == "0x" && forall i | 2 <= i < |s| :: HexChar(s[i]))
    || (|s| >= 2 && s[0] == '0' && s[1] != '0' && forall i | 1 <= i < |s| :: '0' <= s[i] <= '7')
    || (|s| == 3 && s[0] == '0' && s[1] in {'e', 'E'} && Sign(s[2]))
  }

  // ------------------------------------------------------------ the tail

  lemma {:induction false} ScientificTail(s: string, decimal: bool)
    requires '\0' !in s
    ensures NumericTail(s, decimal, true) <==> Digits(s)
    decreases |s|
  {
    if s != "" {
      ScientificTail(s[1..], decimal);
      assert Digits(s) <==> Digit(s[0]) && Digits(s[1..]) by {
        DigitsBehind(s);
      }
    }
  }

  lemma DigitsBehind(s: string)
    requires s != ""
    ensures Digits(s) <==> Digit(s[0]) && Digits(s[1..])
  {
    if Digit(s[0]) && Digits(s[1..]) {
      forall i | 0 <= i < |s|
        ensures Digit(s[i])
      {
        assert i > 0 ==> s[i] == s[1..][i - 1];
      }
    }
  }

  /** One more digit in front. */
  lemma DecimalBehind(s: string, i: nat, j: nat)
    requires s != "" && 0 < i
    ensures DecimalAt(s, i, j) <==> Digit(s[0]) && 0 < j && DecimalAt(s[1..], i - 1, j - 1)
  {
    if i <= j <= |s| {
      DigitsBehind(s[..i]);
      assert s[..i][1..] == s[1..][..i - 1] && s[i..j] == s[1..][i - 1..j - 1] && s[j..] == s[1..][j - 1..];
    }
  }

  /** Behind the point. */
  lemma PointBehind(s: string, j: nat)
    requires s != "" && s[0] == '.' && 0 < j
    ensures DecimalAt(s, 0, j) <==> DecimalAt(s[1..], j - 1, j - 1)
  {
    if j <= |s| {
      var t := s[1..];
      assert s[..0] == "" && s[0..j][1..] == t[..j - 1] && s[j..] == t[j - 1..] && t[j - 1..j - 1] == "";
    }
  }

  lemma ExponentTail(s: string, decimal: bool)
    requires '\0' !in s && s != "" && s[0] in {'e', 'E'}
    ensures NumericTail(s, decimal, false) <==> Exponent(s)
  {
    if |s| > 1 {
      ScientificTail(s[2..], decimal);
      DigitsBehind(s[1..]);
      assert s[1..][1..] == s[2..];
      if |s| > 2 {
        DigitsBehind(s[2..]);
      }
    }
  }

  /** What the first character tells. */
  lemma FirstOf(s: string, i: nat, j: nat)
    requires s != "" && DecimalAt(s, i, j)
    ensures if i > 0 then Digit(s[0]) else if j > 0 then s[0] == '.' else s[0] in {'e', 'E'} && Exponent(s)
  {
    assert i > 0 ==> s[..i][0] == s[0];
    assert i == 0 && j > 0 ==> s[i..j][0] == s[0];
    assert s[0..] == s;
  }

  lemma OnlyExponent(s: string)
    requires Exponent(s)
    ensures DecimalAt(s, 0, 0)
  {
    assert s[0..] == s && s[0..0] == "";
  }

  /** Behind a point: digits and an exponent. */
  lemma {:induction false} PointTail(s: string)
    requires '\0' !in s
    ensures NumericTail(s, true, false) <==> exists j: nat :: DecimalAt(s, j, j)
    decreases |s|
  {
    if s == "" {
      OnlyExponent(s);
    } else if Digit(s[0]) {
      PointTail(s[1..]);
      if j: nat :| DecimalAt(s[1..], j, j) {
        DecimalBehind(s, j + 1, j + 1);
      }
      if j: nat :| DecimalAt(s, j, j) {
        FirstOf(s, j, j);
        DecimalBehind(s, j, j);
      }
    } else {
      if j: nat :| DecimalAt(s, j, j) {
        FirstOf(s, j, j);
      }
      if s[0] in {'e', 'E'} {
        ExponentTail(s, true);
        if Exponent(s) {
          OnlyExponent(s);
        }
      }
    }
  }

  /** Everything behind the first digits. */
  lemma {:induction false} TailIff(s: string)
    requires '\0' !in s
    ensures NumericTail(s, false, false) <==> exists i, j :: DecimalAt(s, i, j)
    decreases |s|
  {
    if s == "" {
      OnlyExponent(s);
    } else if Digit(s[0]) {
      TailIff(s[1..]);
      if i: nat, j: nat :| DecimalAt(s[1..], i, j) {
        DecimalBehind(s, i + 1, j + 1);
      }
      if i: nat, j: nat :| DecimalAt(s, i, j) {
        FirstOf(s, i, j);
        DecimalBehind(s, i, j);
      }
    } else if s[0] == '.' {
      PointTail(s[1..]);
      if j: nat :| DecimalAt(s[1..], j, j) {
        PointBehind(s, j + 1);
      }
      if i: nat, j: nat :| DecimalAt(s, i, j) {
        FirstOf(s, i, j);
        PointBehind(s, j);
      }
    } else {
      if i: nat, j: nat :| DecimalAt(s, i, j) {
        FirstOf(s, i, j);
      }
      if s[0] in {'e', 'E'} {
        ExponentTail(s, false);
        if Exponent(s) {
          OnlyExponent(s);
        }
      }
    }
  }

  // ------------------------------------------------------------ the numerals

  lemma BehindDigit(s: string)
    requires '\0' !in s && s != "" && Digit(s[0])
    ensures NumericTail(s[1..], false, false) <==> exists i: nat, j: nat :: DecimalAt(s, i, j) && 0 < i
  {
    TailIff(s[1..]);
    if i: nat, j: nat :| DecimalAt(s[1..], i, j) {
      DecimalBehind(s, i + 1, j + 1);
    }
    if i: nat, j: nat :| DecimalAt(s, i, j) && 0 < i {
      DecimalBehind(s, i, j);
    }
  }

  lemma BehindSign(s: string)
    requires '\0' !in s && s != "" && Sign(s[0])
    ensures IsNumeric(s) <==> exists i: nat, j: nat :: DecimalAt(s[1..], i, j) && 0 < i
  {
    if i: nat, j: nat :| DecimalAt(s[1..], i, j) && 0 < i {
      FirstOf(s[1..], i, j);
      BehindDigit(s[1..]);
      assert s[1..][1..] == s[2..];
    }
    if |s| > 1 && Digit(s[1]) {
      BehindDigit(s[1..]);
      assert s[1..][1..] == s[2..];
    }
  }

  lemma BehindPoint(s: string)
    requires '\0' !in s && s != "" && s[0] == '.'
    ensures IsNumeric(s) <==> exists j: nat :: DecimalAt(s, 0, j)
  {
    PointTail(s[1..]);
    if j: nat :| DecimalAt(s[1..], j, j) {
      PointBehind(s, j + 1);
    }
    if j: nat :| DecimalAt(s, 0, j) {
      FirstOf(s, 0, j);
      PointBehind(s, j);
    }
  }

  /** A zero in front, with nothing, a fraction or an exponent behind it. */
  lemma BehindZero(s: string)
    requires '\0' !in s && s != "" && s[0] == '0'
    ensures (exists j: nat :: DecimalAt(s, 1, j)) <==>
            |s| == 1 || (s[1] == '.' && NumericTail(s[2..], true, false)) || Exponent(s[1..])
  {
    var t := s[1..];
    if |s| > 1 && s[1] == '.' {
      assert t[1..] == s[2..];
      PointTail(s[2..]);
      if j: nat :| DecimalAt(s[2..], j, j) {
        PointBehind(t, j + 1);
        DecimalBehind(s, 1, j + 2);
      }
    }
    if Exponent(t) {
      OnlyExponent(t);
      DecimalBehind(s, 1, 1);
    }
    if j: nat :| DecimalAt(s, 1, j) {
      DecimalBehind(s, 1, j);
      if t != "" {
        FirstOf(t, 0, j - 1);
        if j > 1 {
          PointBehind(t, j - 1);
        }
      }
    }
  }

  lemma ZeroExponent(s: string)
    requires '\0' !in s && |s| > 1 && s[0] == '0' && s[1] in {'e', 'E'}
    ensures IsNumeric(s) <==> Exponent(s[1..]) || (|s| == 3 && Sign(s[2]))
  {
    if |s| > 2 {
      ScientificTail(s[3..], false);
      assert s[1..][1..] == s[2..] && s[1..][2..] == s[3..];
      DigitsBehind(s[2..]);
      assert s[2..][1..] == s[3..];
    }
  }

  lemma ZeroIff(s: string)
    requires '\0' !in s && s != "" && s[0] == '0'
    ensures IsNumeric(s) <==> Accepted(s)
  {
    BehindZero(s);
    assert (exists j: nat :: DecimalAt(s, 1, j)) <==>
           exists i: nat, j: nat :: DecimalAt(s, i, j) && 0 < i && (s[0] == '0' ==> i == 1);
    if |s| > 1 {
      assert s[..2] == [s[0], s[1]];
      if s[1] in {'e', 'E'} {
        ZeroExponent(s);
      }
    }
  }

  /** The texts that are numbers for the parser. */
  lemma NumericIff(s: string)
    requires '\0' !in s
    ensures IsNumeric(s) <==> Accepted(s)
  {
    if s != "" {
      if s[0] == '0' {
        ZeroIff(s);
      } else if Sign(s[0]) {
        BehindSign(s);
        NoPlain(s);
      } else if s[0] == '.' {
        BehindPoint(s);
        NoPlain(s);
      } else if Digit(s[0]) {
        BehindDigit(s);
      } else {
        NoPlain(s);
      }
    }
  }

  lemma NoPlain(s: string)
    requires s != "" && !Digit(s[0])
    ensures !exists i: nat, j: nat :: DecimalAt(s, i, j) && 0 < i
  {
    if i: nat, j: nat :| DecimalAt(s, i, j) && 0 < i {
      FirstOf(s, i, j);
    }
  }

  lemma NoNulAt(s: string, i: nat, j: nat)
    requires DecimalAt(s, i, j)
    ensures '\0' !in s
  {
    assert '\0' !in s[..i] && '\0' !in s[i..j] && '\0' !in s[j..];
    assert s == s[..i] + s[i..j] + s[j..];
  }

  /** Every number of JSON is one for the parser. */
  lemma JsonNumeralIsNumeric(s: string)
    requires JsonNumeral(s)
    ensures IsNumeric(s) && '\0' !in s
  {
    var t := if s != "" && s[0] == '-' then s[1..] else s;
    var i: nat, j: nat :| DecimalAt(t, i, j) && 0 < i && (t[0] == '0' ==> i == 1) && j != i + 1;
    NoNulAt(t, i, j);
    assert t != s ==> s == ['-'] + t;
    NumericIff(s);
  }

  /** A text is parsed to the number with this text exactly when it is one. */
  lemma NumberIff(text: string)
    ensures ParseValue(text) == Some(Number(text)) <==> IsNumeric(text)
  {
  }

  /** So it is kept as it is written. */
  lemma NumeralIsParsed(t: string)
    requires JsonNumeral(t)
    ensures Parse("[" + t + "]") == Root(Node("", false, Array([Node("", false, Number(t))])))
  {
    JsonNumeralIsNumeric(t);
    var n := Node("", false, Number(t));
    OneElement(n);
    OneReparsed(n);
    assert Render(n, Compact, true, false) == "" + t == t;
    ParsePrinted(Node("", false, Array([n])), Compact);
  }

  lemma OneElement(n: Node)
    requires Printable(n, true)
    ensures var doc := Node("", false, Array([n]));
      Printable(doc, true) && Render(doc, Compact, true, false) == "[" + Render(n, Compact, true, false) + "]"
  {
    var text := Render(n, Compact, true, false);
    assert [n][1..] == [] && AllPrintable([], true) && AllPrintable([n], true);
    assert RenderList([n], Compact, true, false) == "" + text + "" == text;
    assert RenderChildren([n], Compact, true, false) == text + "" == text;
  }

  lemma OneReparsed(n: Node)
    requires n.value.Number? && n.name == "" && !n.nameEncoded
    ensures var doc := Node("", false, Array([n])); Reparse(doc, true) == doc
  {
    assert [n][1..] == [] && ReparseList([n][1..], true) == [];
    assert Reparse(n, true) == n;
    assert ReparseList([n], true) == [n];
  }
}
