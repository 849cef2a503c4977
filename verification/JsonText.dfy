/**
 Escaping and unescaping of JSON string bodies, as JSONWorker does it for 8-bit characters
 (JSON_ESCAPE_WRITES on, JSON_UNICODE and JSON_STRICT off).
 */
module JsonText {

  /** What a loop over a character buffer ends with: a text, the pointer stepping past the end of the
      buffer (after which the source's behaviour is undefined), or the start of a comment outside the
      strings, which this model does not follow. */
  datatype Scan = Overrun | Comment | Text(text: string)

  /** The cast (json_uchar)c, for an 8-bit json_char. */
  function Code(c: char): nat {
    c as int % 256
  }

  predicate IsBytes(s: string) {
    forall i | 0 <= i < |s| :: s[i] as int < 256
  }

  // Regrouping of concatenations.

  lemma Regroup(l: string, x: string, r: string, rest: string)
    ensures l + x + r + rest == l + (x + (r + rest))
  {
  }

  // ---------------------------------------------------------------- escaping

  /** One upper-case hexadecimal digit, as toUTF8 builds it. */
  function HexDigit(d: nat): (c: char)
    requires d < 16
  {
    var h := d + 48;
    (if h > 57 then h + 7 else h) as char
  }

  function ToUTF8(p: nat): string
    requires p < 256
  {
    "\\u00" + [HexDigit(p / 16), HexDigit(p % 16)]
  }

  function EscapeChar(c: char): string {
    if c == '\"' then "\\\""
    else if c == '\\' then "\\\\"
    else if c == '\t' then "\\t"
    else if c == '\n' then "\\n"
    else if c == '\r' then "\\r"
    else if c == '/' then "\\/"
    else if c == '\U{8}' then "\\b"
    else if c == '\U{C}' then "\\f"
    else if Code(c) < 32 || Code(c) > 126 then ToUTF8(Code(c))
    else [c]
  }

  function Escape(s: string): string {
    if s == [] then [] else EscapeChar(s[0]) + Escape(s[1..])
  }

  /** JSONWorker::UnfixString: appends the (escaped) value to res. */
  method UnfixString(value: string, flag: bool, res: string) returns (out: string)
    ensures out == res + (if flag then Escape(value) else value)
  {
    if !flag {
      return res + value;
    }
    out := res;
    assert value[0..] == value;
    for p := 0 to |value|
      invariant out + Escape(value[p..]) == res + Escape(value)
    {
      assert value[p..][0] == value[p] && value[p..][1..] == value[p + 1..];
      out := out + EscapeChar(value[p]);
    }
    assert out + [] == out;
  }

  // -------------------------------------------------------------- unescaping

  /** Bitwise or of two non-negative integers. */
  function BitOr(a: nat, b: nat): nat
    decreases a + b
  {
    if a == 0 then b else if b == 0 then a
    else 2 * BitOr(a / 2, b / 2) + (if a % 2 == 1 || b % 2 == 1 then 1 else 0)
  }

  /** The value Hex gives one digit: an unsigned char, so the subtraction wraps. */
  function DigitValue(c: char): nat {
    var d := (Code(c) + 208) % 256;
    if d > 48 then d - 39 else if d > 9 then d - 7 else d
  }

  function Hex(hi: char, lo: char): char {
    (BitOr(DigitValue(hi) * 16, DigitValue(lo)) % 256) as char
  }

  function Octal(c: char): nat {
    (Code(c) + 208) % 256
  }

  function FromOctal(a: char, b: char, c: char): char {
    (BitOr(BitOr(Octal(a) * 64, Octal(b) * 8), Octal(c)) % 256) as char
  }

  /** JSONWorker::SpecialChar on the text after a backslash: the character it appends and how many
      characters of that text it uses up. */
  function SpecialChar(t: string): (r: (char, nat))
    requires t != []
    ensures 1 <= r.1 <= |t|
  {
    match t[0]
    case '\U{1}' => ('\"', 1)
    case 't' => ('\t', 1)
    case 'n' => ('\n', 1)
    case 'r' => ('\r', 1)
    case '\\' => ('\\', 1)
    case '/' => ('/', 1)
    case 'b' => ('\U{8}', 1)
    case 'f' => ('\U{C}', 1)
    case 'v' => ('\U{B}', 1)
    case 'u' => if |t| > 4 then (Hex(t[3], t[4]), 5) else ('\0', 1)
    case 'x' => if |t| > 3 then (Hex(t[1], t[2]), 3) else ('\0', 1)
    case c =>
      if '0' <= c <= '7' then
        if |t| > 3 then (FromOctal(t[0], t[1], t[2]), 3) else ('\0', 1)
      else (c, 1)
  }

  function Prepend(c: char, s: Scan): Scan {
    if s.Text? then Text([c] + s.text) else s
  }

  /** What FixString makes of s; a lone backslash at the end makes it step past the end. */
  function Unescape(s: string): Scan {
    if s == [] then Text([])
    else if s[0] != '\\' then Prepend(s[0], Unescape(s[1..]))
    else if |s| == 1 then Overrun
    else
      var (c, used) := SpecialChar(s[1..]);
      Prepend(c, Unescape(s[1 + used..]))
  }

  /** JSONWorker::FixString. The flag reports whether anything was escaped. */
  method FixString(value: string) returns (res: Scan, flag: bool)
    ensures res == Unescape(value)
    ensures res.Text? ==> (flag <==> '\\' in value)
  {
    flag := false;
    var p := 0;
    var done := "";
    assert value[0..] == value;
    while p < |value|
      invariant p <= |value|
      invariant flag <==> '\\' in value[..p]
      invariant Unescape(value) == PrependAll(done, Unescape(value[p..]))
    {
      ghost var rest := value[p..];
      assert rest[0] == value[p] && rest[1..] == value[p + 1..];
      if value[p] == '\\' {
        flag := true;
        if p + 1 == |value| {
          return Overrun, flag;
        }
        done, p := FixEscape(value, p, done);
      } else {
        PrependAllSnoc(done, value[p], Unescape(value[p + 1..]));
        done := done + [value[p]];
        SeenUpTo(value, p, p + 1, '\\');
        p := p + 1;
      }
    }
    assert value[..p] == value;
    return Text(done), flag;
  }

  /** One escape sequence. */
  method FixEscape(value: string, p: nat, done: string) returns (longer: string, end: nat)
    requires p + 1 < |value| && value[p] == '\\'
    ensures p < end <= |value| && '\\' in value[..end]
    ensures PrependAll(longer, Unescape(value[end..])) == PrependAll(done, Unescape(value[p..]))
  {
    var (c, used) := SpecialChar(value[p + 1..]);
    EscapeStep(value, p);
    PrependAllSnoc(done, c, Unescape(value[p + 1 + used..]));
    longer, end := done + [c], p + 1 + used;
    SeenUpTo(value, p, end, '\\');
  }

  lemma SeenUpTo(value: string, p: nat, q: nat, c: char)
    requires p < q <= |value|
    ensures value[p] == c ==> c in value[..q]
    ensures q == p + 1 && value[p] != c ==> (c in value[..q] <==> c in value[..p])
  {
    assert value[p] == value[..q][p];
    assert q == p + 1 ==> value[..q] == value[..p] + [value[p]];
  }

  lemma EscapeStep(value: string, p: nat)
    requires p + 1 < |value| && value[p] == '\\'
    ensures var (c, used) := SpecialChar(value[p + 1..]);
      p + 1 + used <= |value| && Unescape(value[p..]) == Prepend(c, Unescape(value[p + 1 + used..]))
  {
    var rest, used := value[p..], SpecialChar(value[p + 1..]).1;
    assert rest[0] == value[p] && rest[1..] == value[p + 1..] && rest[1 + used..] == value[p + 1 + used..];
  }

  function PrependAll(s: string, t: Scan): Scan {
    if t.Text? then Text(s + t.text) else t
  }

  lemma PrependAllTwice(a: string, b: string, t: Scan)
    ensures PrependAll(a, PrependAll(b, t)) == PrependAll(a + b, t)
  {
    if t.Text? {
      assert a + (b + t.text) == (a + b) + t.text;
    }
  }

  lemma PrependAllSnoc(s: string, c: char, t: Scan)
    ensures PrependAll(s, Prepend(c, t)) == PrependAll(s + [c], t)
  {
    if t.Text? {
      assert s + ([c] + t.text) == (s + [c]) + t.text;
    }
  }

  // ------------------------------------------------------- quote marking

  function Marked(x: char, mark: bool): char {
    if mark && x == '\"' then '\U{1}' else x
  }

  /** What the white-space stripper does to a string body: with mark it rewrites each escaped quote to a
      backslash and the character 1, so that later scans may take every quote for a delimiter. */
  function Mark(body: string, mark: bool): string {
    if body == [] then []
    else if body[0] == '\\' && |body| > 1 then
      ['\\', Marked(body[1], mark)] + Mark(body[2..], mark)
    else [body[0]] + Mark(body[1..], mark)
  }

  /** Every quote in the body is escaped, and the body does not end in the middle of an escape. */
  predicate QuotesEscaped(body: string) {
    if body == [] then true
    else if body[0] == '\\' then |body| > 1 && QuotesEscaped(body[2..])
    else body[0] != '\"' && QuotesEscaped(body[1..])
  }

  predicate PrintableAscii(s: string) {
    forall i | 0 <= i < |s| :: ' ' <= s[i] <= '~'
  }

  // -------------------------------------------------------------- theorems

  lemma BitOrNibble(h: nat, lo: nat)
    requires lo < 16
    ensures BitOr(h * 16, lo) == h * 16 + lo
  {
    BitOrStep(h * 16, lo);
    BitOrStep(h * 8, lo / 2);
    BitOrStep(h * 4, lo / 4);
    BitOrStep(h * 2, lo / 8);
    assert h * 16 / 2 == h * 8 && h * 8 / 2 == h * 4 && h * 4 / 2 == h * 2 && h * 2 / 2 == h;
    assert lo / 2 / 2 == lo / 4 && lo / 4 / 2 == lo / 8 && lo / 8 / 2 == 0;
  }

  lemma BitOrStep(a: nat, b: nat)
    ensures BitOr(a, b) == 2 * BitOr(a / 2, b / 2) + (if a % 2 == 1 || b % 2 == 1 then 1 else 0)
  {
    if a == 0 {
      assert BitOr(0, b / 2) == b / 2;
    } else if b == 0 {
      assert BitOr(a / 2, 0) == a / 2;
    }
  }

  lemma DigitRoundTrip(d: nat)
    requires d < 16
    ensures DigitValue(HexDigit(d)) == d
    ensures '0' <= HexDigit(d) <= 'F'
  {
  }

  lemma HexRoundTrip(p: nat)
    requires p < 256
    ensures Hex(HexDigit(p / 16), HexDigit(p % 16)) == p as char
  {
    DigitRoundTrip(p / 16);
    DigitRoundTrip(p % 16);
    BitOrNibble(p / 16, p % 16);
  }

  // Unfolding at a text whose first characters are known.

  lemma MarkPlain(c: char, rest: string, mark: bool)
    requires c != '\\'
    ensures Mark([c] + rest, mark) == [c] + Mark(rest, mark)
  {
    assert ([c] + rest)[1..] == rest;
  }

  lemma MarkEscape(x: char, rest: string, mark: bool)
    ensures Mark(['\\', x] + rest, mark) == ['\\', Marked(x, mark)] + Mark(rest, mark)
  {
    assert (['\\', x] + rest)[2..] == rest;
  }

  lemma UnescapePlain(c: char, rest: string)
    requires c != '\\'
    ensures Unescape([c] + rest) == Prepend(c, Unescape(rest))
  {
    assert ([c] + rest)[1..] == rest;
  }

  lemma UnescapeEscaped(t: string, rest: string)
    requires t != [] && SpecialChar(t + rest).1 == |t|
    ensures Unescape(['\\'] + t + rest) == Prepend(SpecialChar(t + rest).0, Unescape(rest))
  {
    var s := ['\\'] + t + rest;
    assert s[1..] == t + rest;
    assert s[1 + |t|..] == rest;
  }

  /** The two-character escapes. */
  lemma ShortEscape(c: char, m: string, mark: bool)
    requires |EscapeChar(c)| == 2
    ensures EscapeChar(c) == ['\\', EscapeChar(c)[1]]
    ensures SpecialChar([Marked(EscapeChar(c)[1], mark)] + m) == (c, 1)
  {
  }

  /** The \u00XX escapes. */
  lemma LongEscape(c: char, m: string)
    requires c as int < 256 && |EscapeChar(c)| > 2
    ensures var h, l := HexDigit(Code(c) / 16), HexDigit(Code(c) % 16);
      && EscapeChar(c) == ['\\', 'u', '0', '0', h, l] && '0' <= h <= 'F' && '0' <= l <= 'F'
      && SpecialChar(['u', '0', '0', h, l] + m) == (c, 5)
  {
    var h, l := HexDigit(Code(c) / 16), HexDigit(Code(c) % 16);
    HexRoundTrip(Code(c));
    DigitRoundTrip(Code(c) / 16);
    DigitRoundTrip(Code(c) % 16);
    SpecialHex(h, l, m);
    LongEscapeText(c);
  }

  lemma LongEscapeText(c: char)
    requires c as int < 256 && |EscapeChar(c)| > 2
    ensures EscapeChar(c) == ToUTF8(Code(c)) && Code(c) as char == c
  {
  }

  lemma SpecialHex(h: char, l: char, m: string)
    ensures SpecialChar(['u', '0', '0', h, l] + m) == (Hex(h, l), 5)
  {
    var t := ['u', '0', '0', h, l] + m;
    assert t[0] == 'u' && t[3] == h && t[4] == l && |t| > 4;
  }

  lemma {:induction false} MarkPlainAll(s: string, rest: string, mark: bool)
    requires '\\' !in s
    ensures Mark(s + rest, mark) == s + Mark(rest, mark)
  {
    if s == [] {
      assert s + rest == rest;
    } else {
      assert s + rest == [s[0]] + (s[1..] + rest);
      MarkPlain(s[0], s[1..] + rest, mark);
      MarkPlainAll(s[1..], rest, mark);
    }
  }

  /** One escaped character, marked or not, unescapes to itself. */
  lemma UnescapeEscapeChar(c: char, rest: string, mark: bool)
    requires c as int < 256
    ensures Unescape(Mark(EscapeChar(c) + rest, mark)) == Prepend(c, Unescape(Mark(rest, mark)))
  {
    var e := EscapeChar(c);
    var m := Mark(rest, mark);
    if |e| == 1 {
      MarkPlain(c, rest, mark);
      UnescapePlain(c, m);
    } else if |e| == 2 {
      ShortEscape(c, m, mark);
      MarkEscape(e[1], rest, mark);
      var x := Marked(e[1], mark);
      assert ['\\', x] + m == ['\\'] + [x] + m;
      UnescapeEscaped([x], m);
    } else {
      LongEscape(c, m);
      MarkLong(e[4], e[5], rest, mark);
      UnescapeEscaped(['u', '0', '0', e[4], e[5]], m);
    }
  }

  lemma MarkLong(h: char, l: char, rest: string, mark: bool)
    requires '\\' !in [h, l]
    ensures Mark(['\\', 'u', '0', '0', h, l] + rest, mark) == ['\\'] + ['u', '0', '0', h, l] + Mark(rest, mark)
  {
    var t := ['0', '0', h, l];
    assert ['\\', 'u', '0', '0', h, l] + rest == ['\\', 'u'] + (t + rest);
    MarkEscape('u', t + rest, mark);
    MarkPlainAll(t, rest, mark);
    assert ['\\', 'u'] + (t + Mark(rest, mark)) == ['\\'] + ['u', '0', '0', h, l] + Mark(rest, mark);
  }

  /** Unescaping undoes escaping, also after the stripper rewrote every escaped quote. */
  lemma {:induction false} UnescapeUndoesEscape(s: string, mark: bool)
    requires IsBytes(s)
    ensures Unescape(Mark(Escape(s), mark)) == Text(s)
  {
    if s != [] {
      UnescapeEscapeChar(s[0], Escape(s[1..]), mark);
      UnescapeUndoesEscape(s[1..], mark);
      assert [s[0]] + s[1..] == s;
    }
  }

  lemma {:induction false} MarkOff(s: string)
    ensures Mark(s, false) == s
  {
    if s != [] {
      if s[0] == '\\' && |s| > 1 {
        MarkOff(s[2..]);
        assert s == ['\\', s[1]] + s[2..];
      } else {
        MarkOff(s[1..]);
      }
    }
  }

  lemma QuotesEscapedChar(c: char, rest: string)
    requires c as int < 256
    requires QuotesEscaped(rest)
    ensures QuotesEscaped(EscapeChar(c) + rest)
    ensures PrintableAscii(EscapeChar(c))
  {
    var e := EscapeChar(c);
    EscapeShape(c);
    if |e| == 1 {
      PlainQuotesEscaped(e, rest);
    } else if |e| == 2 {
      ShortQuotesEscaped(e[1], rest);
    } else {
      LongEscape(c, rest);
      LongQuotesEscaped(e[4], e[5], rest);
    }
  }

  lemma EscapeShape(c: char)
    requires c as int < 256
    ensures var e := EscapeChar(c);
      && (|e| == 1 ==> '\\' !in e && '\"' !in e && PrintableAscii(e))
      && (|e| == 2 ==> e == ['\\', e[1]] && PrintableAscii(e))
  {
  }

  lemma ShortQuotesEscaped(c: char, rest: string)
    requires QuotesEscaped(rest)
    ensures QuotesEscaped(['\\', c] + rest)
  {
    assert (['\\', c] + rest)[2..] == rest;
  }

  lemma LongQuotesEscaped(h: char, l: char, rest: string)
    requires QuotesEscaped(rest) && '0' <= h <= 'F' && '0' <= l <= 'F'
    ensures QuotesEscaped(['\\', 'u', '0', '0', h, l] + rest)
  {
    var t := ['0', '0', h, l];
    PlainQuotesEscaped(t, rest);
    assert (['\\', 'u', '0', '0', h, l] + rest)[2..] == t + rest;
  }

  lemma PlainQuotesEscaped(s: string, rest: string)
    requires '\\' !in s && '\"' !in s && QuotesEscaped(rest)
    ensures QuotesEscaped(s + rest)
  {
    if s == [] {
      assert s + rest == rest;
    } else {
      PlainQuotesEscaped(s[1..], rest);
      assert (s + rest)[1..] == s[1..] + rest;
    }
  }

  /** The escaped text is printable ASCII in which a backslash stands before every quote. */
  lemma {:induction false} EscapeIsClean(s: string)
    requires IsBytes(s)
    ensures PrintableAscii(Escape(s)) && QuotesEscaped(Escape(s))
  {
    if s != [] {
      EscapeIsClean(s[1..]);
      QuotesEscapedChar(s[0], Escape(s[1..]));
    }
  }

  /** After marking, no quote is left in a body whose quotes were all escaped. */
  lemma {:induction false} MarkedHasNoQuote(body: string)
    requires QuotesEscaped(body)
    ensures '\"' !in Mark(body, true)
  {
    if body != [] {
      if body[0] == '\\' {
        MarkedHasNoQuote(body[2..]);
      } else {
        MarkedHasNoQuote(body[1..]);
      }
    }
  }
}
