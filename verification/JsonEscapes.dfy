/**
 What the escapes of a JSON string mean.
 */
module JsonEscapes {
  import opened JsonText
  import opened JsonNode

  /** The two-character escapes of section 7 of RFC 8259. */
  const SHORT := map['\"' := '\"', '\\' := '\\', '/' := '/', 'b' := '\U{8}', 'f' := '\U{C}', 'n' := '\n', 'r' := '\r',
                     't' := '\t']

  function NumberOf(c: char): nat
    requires HexChar(c)
  {
    if Digit(c) then c as int - '0' as int
    else if 'A' <= c <= 'F' then c as int - 'A' as int + 10
    else c as int - 'a' as int + 10
  }

  /** How each byte is written: by its short escape, if it has one, as it is when it is printable, and otherwise as
      \u00 with two hexadecimal digits. */
  lemma EscapeCharIs(c: char)
    requires c as int < 256
    ensures var e := EscapeChar(c);
      if c in SHORT.Values then exists x :: x in SHORT && SHORT[x] == c && e == ['\\', x]
      else if ' ' <= c <= '~' then e == [c]
      else
        && |e| == 6 && e[..4] == "\\u00" && HexChar(e[4]) && HexChar(e[5])
        && 16 * NumberOf(e[4]) + NumberOf(e[5]) == c as int
  {
    ShortValues(c);
    if c in SHORT.Values {
      ShortIsWritten(c);
    } else if !(' ' <= c <= '~') {
      LongIsWritten(c);
    }
  }

  predicate HasShort(c: char) {
    c in {'\"', '\\', '/', '\U{8}', '\U{C}', '\n', '\r', '\t'}
  }

  lemma ShortValues(c: char)
    ensures c in SHORT.Values <==> HasShort(c)
  {
    assert SHORT['\"'] == '\"' && SHORT['\\'] == '\\' && SHORT['/'] == '/' && SHORT['b'] == '\U{8}';
    assert SHORT['f'] == '\U{C}' && SHORT['n'] == '\n' && SHORT['r'] == '\r' && SHORT['t'] == '\t';
  }

  lemma ShortIsWritten(c: char)
    requires HasShort(c)
    ensures |EscapeChar(c)| == 2 && EscapeChar(c)[0] == '\\'
    ensures EscapeChar(c)[1] in SHORT && SHORT[EscapeChar(c)[1]] == c
  {
  }

  lemma LongIsWritten(c: char)
    requires c as int < 256 && !HasShort(c) && !(' ' <= c <= '~')
    ensures var e := EscapeChar(c);
      && |e| == 6 && e[..4] == "\\u00" && HexChar(e[4]) && HexChar(e[5])
      && 16 * NumberOf(e[4]) + NumberOf(e[5]) == c as int
  {
    var n := Code(c);
    assert EscapeChar(c) == ToUTF8(n) && n == c as int;
    DigitIs(n / 16);
    DigitIs(n % 16);
  }

  lemma DigitIs(d: nat)
    requires d < 16
    ensures HexChar(HexDigit(d)) && NumberOf(HexDigit(d)) == d
  {
  }

  lemma DigitValueIs(c: char)
    requires HexChar(c)
    ensures DigitValue(c) == NumberOf(c) < 16
  {
  }

  // ------------------------------------------------------------ reading

  /** The short escapes are read back; a quote may have been rewritten before. */
  lemma ShortIsRead(x: char, rest: string, mark: bool)
    requires x in SHORT
    ensures Unescape(['\\', Marked(x, mark)] + rest) == Prepend(SHORT[x], Unescape(rest))
  {
    UnescapeEscaped([Marked(x, mark)], rest);
    assert ['\\'] + [Marked(x, mark)] == ['\\', Marked(x, mark)];
  }

  /** A \u escape gives the character of its last two digits. */
  lemma UnicodeIsRead(a: char, b: char, h: char, l: char, rest: string)
    requires HexChar(h) && HexChar(l)
    ensures Unescape(['\\', 'u', a, b, h, l] + rest) ==
            Prepend((16 * NumberOf(h) + NumberOf(l)) as char, Unescape(rest))
  {
    var t := ['u', a, b, h, l];
    assert (t + rest)[3] == h && (t + rest)[4] == l;
    TwoDigits(h, l);
    UnescapeEscaped(t, rest);
    assert ['\\'] + t == ['\\', 'u', a, b, h, l];
  }

  lemma TwoDigits(h: char, l: char)
    requires HexChar(h) && HexChar(l)
    ensures Hex(h, l) == (16 * NumberOf(h) + NumberOf(l)) as char
  {
    DigitValueIs(h);
    DigitValueIs(l);
    Nibbles(DigitValue(h), DigitValue(l));
  }

  lemma Nibbles(a: nat, b: nat)
    requires a < 16 && b < 16
    ensures BitOr(a * 16, b) % 256 == 16 * a + b
  {
    BitOrNibble(a, b);
  }

  /** A \x escape gives the character of its two digits, unless it ends the text: then it gives a NUL, and the digits
      stay. */
  lemma HexIsRead(h: char, l: char, rest: string)
    requires HexChar(h) && HexChar(l)
    ensures Unescape(['\\', 'x', h, l] + rest) ==
            if rest == "" then Text(['\0', h, l])
            else Prepend((16 * NumberOf(h) + NumberOf(l)) as char, Unescape(rest))
  {
    var t := ['x', h, l];
    assert ['\\'] + t == ['\\', 'x', h, l];
    if rest == "" {
      CutShort('x', h, l);
    } else {
      assert (t + rest)[1] == h && (t + rest)[2] == l;
      TwoDigits(h, l);
      UnescapeEscaped(t, rest);
    }
  }

  lemma CutShort(x: char, h: char, l: char)
    requires (x == 'x' || '0' <= x <= '7') && h != '\\' && l != '\\'
    ensures Unescape(['\\', x, h, l] + "") == Text(['\0', h, l])
  {
    var s := ['\\', x, h, l];
    assert s + "" == s && s[1..] == [x, h, l] && s[2..] == [h, l];
    UnescapePlain(l, "");
    UnescapePlain(h, [l]);
    assert [l] + "" == [l] && [h] + [l] == [h, l] && Unescape("") == Text("");
  }

  predicate OctalDigit(c: char) {
    '0' <= c <= '7'
  }

  function OctalOf(c: char): nat
    requires OctalDigit(c)
  {
    c as int - '0' as int
  }

  /** Three octal digits likewise, modulo 256. */
  lemma OctalIsRead(a: char, b: char, c: char, rest: string)
    requires OctalDigit(a) && OctalDigit(b) && OctalDigit(c)
    ensures Unescape(['\\', a, b, c] + rest) ==
            if rest == "" then Text(['\0', b, c])
            else Prepend(((64 * OctalOf(a) + 8 * OctalOf(b) + OctalOf(c)) % 256) as char, Unescape(rest))
  {
    var t := [a, b, c];
    assert ['\\'] + t == ['\\', a, b, c];
    if rest == "" {
      CutShort(a, b, c);
    } else {
      assert (t + rest)[0] == a && (t + rest)[1] == b && (t + rest)[2] == c;
      FromOctalIs(a, b, c);
      UnescapeEscaped(t, rest);
    }
  }

  lemma FromOctalIs(a: char, b: char, c: char)
    requires OctalDigit(a) && OctalDigit(b) && OctalDigit(c)
    ensures FromOctal(a, b, c) == ((64 * OctalOf(a) + 8 * OctalOf(b) + OctalOf(c)) % 256) as char
  {
    OctalIs(a);
    OctalIs(b);
    OctalIs(c);
    var x, y, z := Octal(a), Octal(b), Octal(c);
    OctalDigits(x, y, z);
    assert FromOctal(a, b, c) == (BitOr(BitOr(x * 64, y * 8), z) % 256) as char;
  }

  lemma OctalIs(c: char)
    requires OctalDigit(c)
    ensures Octal(c) == OctalOf(c) < 8
  {
  }

  lemma OctalDigits(a: nat, b: nat, c: nat)
    requires a < 8 && b < 8 && c < 8
    ensures BitOr(BitOr(a * 64, b * 8), c) == 64 * a + 8 * b + c
  {
    LowOctal(a, b);
    Doubled(a * 8, b);
    Doubled(a * 16, 2 * b);
    Doubled(a * 32, 4 * b);
    assert 2 * (a * 8) == a * 16 && 2 * (a * 16) == a * 32 && 2 * (a * 32) == a * 64;
    assert 2 * (2 * b) == 4 * b && 2 * (4 * b) == b * 8;
    assert BitOr(a * 64, b * 8) == (8 * a + b) * 8;
    LowOctal(8 * a + b, c);
  }

  lemma LowOctal(h: nat, lo: nat)
    requires lo < 8
    ensures BitOr(h * 8, lo) == h * 8 + lo
  {
    BitOrStep(h * 8, lo);
    BitOrStep(h * 4, lo / 2);
    BitOrStep(h * 2, lo / 4);
    assert h * 8 / 2 == h * 4 && h * 4 / 2 == h * 2 && h * 2 / 2 == h && lo / 2 / 2 == lo / 4 && lo / 4 / 2 == 0;
  }

  lemma Doubled(a: nat, b: nat)
    ensures BitOr(2 * a, 2 * b) == 2 * BitOr(a, b)
  {
    BitOrStep(2 * a, 2 * b);
  }

  /** Any other character stands for itself, a vertical tab excepted. */
  lemma OtherIsRead(c: char, rest: string)
    requires c !in SHORT && c !in {'u', 'x', 'v', '\U{1}'} && !OctalDigit(c)
    ensures Unescape(['\\', c] + rest) == Prepend(c, Unescape(rest))
    ensures Unescape(['\\', 'v'] + rest) == Prepend('\U{B}', Unescape(rest))
  {
    UnescapeEscaped([c], rest);
    UnescapeEscaped(['v'], rest);
    assert ['\\'] + [c] == ['\\', c] && ['\\'] + ['v'] == ['\\', 'v'];
  }
}
