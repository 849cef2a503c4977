/**
 JSONValidator: what it accepts, as functions of the text from the pointer on, its pointer-moving
 methods, and the proof that it accepts what the writer prints up to nesting 128.
 */
module JsonValidator {
  import opened Wrappers
  import opened JsonText
  import opened JsonNode
  import opened JsonWriter

  const MAX_NEST_LEVEL := 128

  /** The answer of a check that moved the pointer: the text from the new pointer on when it holds.
      Overrun says that the pointer moved past the terminating NUL. */
  datatype Verdict = Fails | Overruns | Passes(rest: string)

  /** *ptr, for a NUL-terminated text. */
  function At(s: string): char {
    if s == [] then '\0' else s[0]
  }

  function Next(s: string): string {
    if s == [] then [] else s[1..]
  }

  // ------------------------------------------------------------ strings and numbers

  function ValidString(s: string): (v: Verdict)
    ensures v.Passes? ==> |v.rest| < |s|
    decreases |s|, 1
  {
    if At(s) == '\"' then Passes(s[1..])
    else if At(s) == '\0' then Fails
    else if At(s) != '\\' then ValidString(s[1..])
    else ValidEscape(s)
  }

  function ValidEscape(s: string): (v: Verdict)
    requires At(s) == '\\'
    ensures v.Passes? ==> |v.rest| < |s|
    decreases |s|, 0
  {
    var e := At(s[1..]);
    if e in {'\"', '\\', '/', 'b', 'f', 'n', 'r', 't'} then ValidString(s[2..])
    else if e == 'u' then
      if |s| >= 6 && HexChar(s[2]) && HexChar(s[3]) && HexChar(s[4]) && HexChar(s[5]) then ValidString(s[6..])
      else Fails
    else if e == 'x' then
      if |s| >= 4 && HexChar(s[2]) && HexChar(s[3]) then ValidString(s[4..]) else Fails
    else Fails
  }

  function NumberTail(s: string, decimal: bool, scientific: bool): (v: Verdict)
    ensures v.Passes? ==> |v.rest| <= |s|
  {
    if At(s) == '.' then
      if decimal || scientific then Fails else NumberTail(s[1..], true, scientific)
    else if At(s) == 'e' || At(s) == 'E' then
      if scientific then Fails
      else if Digit(At(s[1..])) || At(s[1..]) in {'-', '+'} then NumberTail(s[2..], decimal, true)
      else Fails
    else if Digit(At(s)) then NumberTail(s[1..], decimal, scientific)
    else Passes(s)
  }

  function SkipHex(s: string): (r: string)
    ensures |r| <= |s|
  {
    if s != [] && HexChar(s[0]) then SkipHex(s[1..]) else s
  }

  function ValidNumber(s: string): (v: Verdict)
    ensures v.Passes? ==> |v.rest| <= |s|
  {
    var c := At(s);
    if c == '.' then NumberTail(s[1..], true, false)
    else if c == '+' || c == '-' || '1' <= c <= '9' then NumberTail(s[1..], false, false)
    else if c != '0' then Fails
    else
      var d := At(s[1..]);
      if d == '.' then NumberTail(s[2..], true, false)
      else if d == 'e' || d == 'E' then
        if Digit(At(s[2..])) || At(s[2..]) in {'-', '+'} then NumberTail(s[3..], false, true) else Fails
      else if d == 'x' then Passes(SkipHex(s[2..]))
      else if Digit(d) then NumberTail(s[2..], false, false)
      else Passes(s[1..])
  }

  /** One letter of a literal, in either case. */
  predicate Letter(c: char, lower: char)
    requires 'a' <= lower <= 'z'
  {
    c == lower || c == (lower as int - 32) as char
  }

  predicate Literal(s: string, word: string)
    requires forall i | 0 <= i < |word| :: 'a' <= word[i] <= 'z'
  {
    |word| <= |s| && forall i | 0 <= i < |word| :: Letter(s[i], word[i])
  }

  // ------------------------------------------------------------ members and containers

  function ValidMember(s: string, depth: nat): (v: Verdict)
    ensures v.Passes? ==> |v.rest| <= |s|
    decreases |s|, 1
  {
    var c := At(s);
    if c == '\"' then ValidString(s[1..])
    else if c == '{' then
      if depth + 1 > MAX_NEST_LEVEL then Fails else ValidObject(s[1..], depth + 1)
    else if c == '[' then
      if depth + 1 > MAX_NEST_LEVEL then Fails else ValidArray(s[1..], depth + 1)
    else if Letter(c, 't') then if Literal(s, "true") then Passes(s[4..]) else Fails
    else if Letter(c, 'f') then if Literal(s, "false") then Passes(s[5..]) else Fails
    else if Letter(c, 'n') then if Literal(s, "null") then Passes(s[4..]) else Fails
    else if c in {'}', ']', ','} then Passes(s)
    else if c == '\0' then Fails
    else ValidNumber(s)
  }

  /** The first character is stepped over unseen. */
  function ValidNamedObject(s: string, depth: nat): (v: Verdict)
    ensures v.Passes? ==> |v.rest| <= |s|
    decreases |s|, 2
  {
    if s == [] then Overruns
    else
      match ValidString(s[1..])
      case Passes(t) => AfterName(t, depth)
      case other => other
  }

  function AfterName(t: string, depth: nat): (v: Verdict)
    ensures v.Passes? ==> |v.rest| <= |t|
    decreases |t|, 2
  {
    if At(t) != ':' then Fails
    else
      match ValidMember(t[1..], depth)
      case Passes(u) => AfterMember(u, depth)
      case other => other
  }

  function AfterMember(u: string, depth: nat): (v: Verdict)
    ensures v.Passes? ==> |v.rest| <= |u|
    decreases |u|, 3
  {
    if At(u) == ',' then ValidNamedObject(u[1..], depth)
    else if At(u) == '}' then Passes(u[1..])
    else Fails
  }

  function ValidObject(s: string, depth: nat): (v: Verdict)
    ensures v.Passes? ==> |v.rest| <= |s|
    decreases |s|, 3
  {
    if At(s) == '\"' then ValidNamedObject(s, depth)
    else if At(s) == '}' then Passes(s[1..])
    else Fails
  }

  function ValidArray(s: string, depth: nat): (v: Verdict)
    ensures v.Passes? ==> |v.rest| <= |s|
    decreases |s|, 2
  {
    if At(s) == ']' then Passes(s[1..])
    else
      match ValidMember(s, depth)
      case Passes(t) => AfterElement(t, depth)
      case other => other
  }

  function AfterElement(t: string, depth: nat): (v: Verdict)
    ensures v.Passes? ==> |v.rest| <= |t|
    decreases |t|, 1
  {
    if At(t) == ',' then (if At(t[1..]) == '\0' then Fails else ValidArray(t[1..], depth))
    else if At(t) == ']' then Passes(t[1..])
    else Fails
  }

  function ValidRoot(s: string): Verdict {
    if At(s) == '{' then ValidObject(s[1..], 1)
    else if At(s) == '[' then ValidArray(s[1..], 1)
    else Fails
  }

  /** JSONValidator::isValidRoot: the check passes and stops at the terminator. */
  predicate IsValidRoot(s: string) {
    ValidRoot(s).Passes? && At(ValidRoot(s).rest) == '\0'
  }

  // ------------------------------------------------------------ the methods

  datatype Outcome = No | Past | Yes

  /** The outcome of a method that leaves its pointer at ptr. */
  function Report(o: Outcome, json: string, ptr: nat): Verdict
    requires ptr <= |json|
  {
    match o
    case No => Fails
    case Past => Overruns
    case Yes => Passes(json[ptr..])
  }

  function Char(json: string, p: nat): char {
    if p < |json| then json[p] else '\0'
  }

  /** Reading through a pointer is reading the text from there on. */
  lemma Reading(json: string, p: nat)
    requires p <= |json|
    ensures At(json[p..]) == Char(json, p)
    ensures forall k: nat | p + k <= |json| ::
              json[p..][k..] == json[p + k..] && At(json[p..][k..]) == Char(json, p + k)
    ensures forall k: nat | p + k < |json| :: json[p..][k] == json[p + k]
  {
    forall k: nat | p + k <= |json|
      ensures json[p..][k..] == json[p + k..] && At(json[p..][k..]) == Char(json, p + k)
    {
    }
  }

  method IsValidString(json: string, start: nat) returns (o: Outcome, ptr: nat)
    requires start <= |json|
    ensures start <= ptr <= |json| && ValidString(json[start..]) == Report(o, json, ptr)
  {
    ptr := start;
    while true
      invariant start <= ptr <= |json|
      invariant ValidString(json[start..]) == ValidString(json[ptr..])
      decreases |json| - ptr
    {
      ReadOne(json, ptr);
      var c := Char(json, ptr);
      if c == '\0' {
        return No, ptr;
      } else if c == '\"' {
        return Yes, ptr + 1;
      }
      var n := CharWidth(json, ptr);
      if n == 0 {
        return No, ptr;
      }
      ptr := ptr + n;
    }
  }

  /** A character inside a string or an escape. */
  method CharWidth(json: string, ptr: nat) returns (n: nat)
    requires ptr < |json| && json[ptr] !in {'\0', '\"'}
    ensures if n == 0 then ValidString(json[ptr..]) == Fails
            else ptr + n <= |json| && ValidString(json[ptr..]) == ValidString(json[ptr + n..])
  {
    ReadOne(json, ptr);
    if json[ptr] == '\\' {
      n := EscapeWidth(json, ptr);
    } else {
      n := 1;
    }
  }

  /** The switch behind a backslash: the length of the escape, 0 when it is not one. */
  method EscapeWidth(json: string, ptr: nat) returns (n: nat)
    requires ptr < |json| && json[ptr] == '\\'
    ensures json[ptr..][0] == '\\'
    ensures if n == 0 then ValidEscape(json[ptr..]) == Fails
            else ptr + n <= |json| && ValidEscape(json[ptr..]) == ValidString(json[ptr + n..])
  {
    Reading(json, ptr);
    var e := Char(json, ptr + 1);
    if e in {'\"', '\\', '/', 'b', 'f', 'n', 'r', 't'} {
      return 2;
    } else if e == 'u' {
      if !HexChar(Char(json, ptr + 2)) || !HexChar(Char(json, ptr + 3))
         || !HexChar(Char(json, ptr + 4)) || !HexChar(Char(json, ptr + 5)) {
        return 0;
      }
      return 6;
    } else if e == 'x' {
      if !HexChar(Char(json, ptr + 2)) || !HexChar(Char(json, ptr + 3)) {
        return 0;
      }
      return 4;
    }
    return 0;
  }

  /** The loop of isValidNumber over the digits after the first. */
  method NumberDigits(json: string, start: nat, decimal0: bool, scientific0: bool) returns (o: Outcome, ptr: nat)
    requires start <= |json|
    ensures start <= ptr <= |json| && NumberTail(json[start..], decimal0, scientific0) == Report(o, json, ptr)
  {
    ptr := start;
    var decimal, scientific := decimal0, scientific0;
    while true
      invariant start <= ptr <= |json|
      invariant NumberTail(json[start..], decimal0, scientific0) == NumberTail(json[ptr..], decimal, scientific)
      decreases |json| - ptr
    {
      ReadOne(json, ptr);
      var c := Char(json, ptr);
      if c == '.' {
        if decimal || scientific {
          return No, ptr;
        }
        decimal := true;
        ptr := ptr + 1;
      } else if c == 'e' || c == 'E' {
        ReadOne(json, ptr + 1);
        if scientific || !(Digit(Char(json, ptr + 1)) || Char(json, ptr + 1) in {'-', '+'}) {
          return No, ptr;
        }
        scientific := true;
        ptr := ptr + 2;
      } else if Digit(c) {
        ptr := ptr + 1;
      } else {
        return Yes, ptr;
      }
    }
  }

  method IsValidNumber(json: string, start: nat) returns (o: Outcome, ptr: nat)
    requires start <= |json|
    ensures start <= ptr <= |json| && ValidNumber(json[start..]) == Report(o, json, ptr)
  {
    Reading(json, start);
    ptr := start;
    var c := Char(json, ptr);
    if c == '.' {
      o, ptr := NumberDigits(json, ptr + 1, true, false);
    } else if c == '+' || c == '-' || '1' <= c <= '9' {
      o, ptr := NumberDigits(json, ptr + 1, false, false);
    } else if c != '0' {
      o := No;
    } else {
      var d := Char(json, ptr + 1);
      if d == '.' {
        o, ptr := NumberDigits(json, ptr + 2, true, false);
      } else if d == 'e' || d == 'E' {
        if Digit(Char(json, ptr + 2)) || Char(json, ptr + 2) in {'-', '+'} {
          o, ptr := NumberDigits(json, ptr + 3, false, true);
        } else {
          o := No;
        }
      } else if d == 'x' {
        ptr := ptr + 2;
        while HexChar(Char(json, ptr))
          invariant start + 2 <= ptr <= |json|
          invariant SkipHex(json[start + 2..]) == SkipHex(json[ptr..])
          decreases |json| - ptr
        {
          Reading(json, ptr);
          ptr := ptr + 1;
        }
        Reading(json, ptr);
        o := Yes;
      } else if Digit(d) {
        o, ptr := NumberDigits(json, ptr + 2, false, false);
      } else {
        o, ptr := Yes, ptr + 1;
      }
    }
  }

  /** The remaining letters of true, false or null, after the first one has been recognised. */
  method CheckLetters(json: string, start: nat, word: string) returns (ok: bool)
    requires start <= |json| && word != [] && forall i | 0 <= i < |word| :: 'a' <= word[i] <= 'z'
    ensures ok == Literal(json[start..], word)
  {
    for i := 0 to |word|
      invariant forall k | 0 <= k < i :: Letter(Char(json, start + k), word[k])
    {
      if !Letter(Char(json, start + i), word[i]) {
        assert start + i < |json| ==> json[start..][i] == json[start + i];
        return false;
      }
    }
    assert Letter(Char(json, start + |word| - 1), word[|word| - 1]);
    return true;
  }

  method IsValidMember(json: string, start: nat, depth: nat) returns (o: Outcome, ptr: nat)
    requires start <= |json|
    ensures start <= ptr <= |json| && ValidMember(json[start..], depth) == Report(o, json, ptr)
    decreases |json| - start, 1
  {
    Reading(json, start);
    ptr := start;
    var c := Char(json, ptr);
    if c == '\"' {
      o, ptr := IsValidString(json, ptr + 1);
    } else if c == '{' || c == '[' {
      if depth + 1 > MAX_NEST_LEVEL {
        o := No;
      } else if c == '{' {
        o, ptr := IsValidObject(json, ptr + 1, depth + 1);
      } else {
        o, ptr := IsValidArray(json, ptr + 1, depth + 1);
      }
    } else if Letter(c, 't') || Letter(c, 'f') || Letter(c, 'n') {
      var word := if Letter(c, 't') then "true" else if Letter(c, 'f') then "false" else "null";
      var ok := CheckLetters(json, ptr, word);
      if ok {
        o, ptr := Yes, ptr + |word|;
      } else {
        o := No;
      }
    } else if c in {'}', ']', ','} {
      o := Yes;
    } else if c == '\0' {
      o := No;
    } else {
      o, ptr := IsValidNumber(json, ptr);
    }
  }

  lemma ReadOne(json: string, p: nat)
    requires p <= |json|
    ensures At(json[p..]) == Char(json, p)
    ensures p < |json| ==> json[p..][1..] == json[p + 1..]
  {
  }

  method IsValidNamedObject(json: string, start: nat, depth: nat) returns (o: Outcome, ptr: nat)
    requires start <= |json|
    ensures start <= ptr <= |json| && ValidNamedObject(json[start..], depth) == Report(o, json, ptr)
    decreases |json| - start, 2
  {
    ReadOne(json, start);
    if start == |json| {
      return Past, start;
    }
    o, ptr := IsValidString(json, start + 1);
    if !o.Yes? {
      return;
    }
    o, ptr := IsValidNamedMember(json, ptr, depth);
  }

  /** The colon and what follows it. */
  method IsValidNamedMember(json: string, start: nat, depth: nat) returns (o: Outcome, ptr: nat)
    requires start <= |json|
    ensures start <= ptr <= |json| && AfterName(json[start..], depth) == Report(o, json, ptr)
    decreases |json| - start, 2
  {
    ReadOne(json, start);
    if Char(json, start) != ':' {
      return No, start;
    }
    o, ptr := IsValidMember(json, start + 1, depth);
    if !o.Yes? {
      return;
    }
    o, ptr := IsValidNextMember(json, ptr, depth);
  }

  /** The switch behind a member. */
  method IsValidNextMember(json: string, start: nat, depth: nat) returns (o: Outcome, ptr: nat)
    requires start <= |json|
    ensures start <= ptr <= |json| && AfterMember(json[start..], depth) == Report(o, json, ptr)
    decreases |json| - start, 3
  {
    ReadOne(json, start);
    ptr := start;
    if Char(json, ptr) == ',' {
      o, ptr := IsValidNamedObject(json, ptr + 1, depth);
    } else if Char(json, ptr) == '}' {
      o, ptr := Yes, ptr + 1;
    } else {
      o := No;
    }
  }

  method IsValidObject(json: string, start: nat, depth: nat) returns (o: Outcome, ptr: nat)
    requires start <= |json|
    ensures start <= ptr <= |json| && ValidObject(json[start..], depth) == Report(o, json, ptr)
    decreases |json| - start, 3
  {
    Reading(json, start);
    if Char(json, start) == '\"' {
      o, ptr := IsValidNamedObject(json, start, depth);
    } else if Char(json, start) == '}' {
      o, ptr := Yes, start + 1;
    } else {
      o, ptr := No, start;
    }
  }

  method IsValidArray(json: string, start: nat, depth: nat) returns (o: Outcome, ptr: nat)
    requires start <= |json|
    ensures start <= ptr <= |json| && ValidArray(json[start..], depth) == Report(o, json, ptr)
    decreases |json| - start, 3
  {
    ptr := start;
    while true
      invariant start <= ptr <= |json|
      invariant ValidArray(json[start..], depth) == ValidArray(json[ptr..], depth)
      decreases |json| - ptr
    {
      ReadOne(json, ptr);
      if Char(json, ptr) == ']' {
        return Yes, ptr + 1;
      }
      var comma;
      comma, o, ptr := IsValidElement(json, ptr, depth);
      if !comma {
        return;
      }
    }
  }

  /** An element and the switch behind it. */
  method IsValidElement(json: string, start: nat, depth: nat) returns (comma: bool, o: Outcome, ptr: nat)
    requires start <= |json| && Char(json, start) != ']'
    ensures start <= ptr <= |json| && (comma ==> start < ptr)
    ensures ValidArray(json[start..], depth) == if comma then ValidArray(json[ptr..], depth) else Report(o, json, ptr)
    decreases |json| - start, 2
  {
    ReadOne(json, start);
    o, ptr := IsValidMember(json, start, depth);
    if !o.Yes? {
      return false, o, ptr;
    }
    comma, o := ElementEnd(json, ptr, depth);
    if comma || o.Yes? {
      ptr := ptr + 1;
    }
  }

  /** The switch behind an element; the pointer moves by one, except when it fails. */
  method ElementEnd(json: string, ptr: nat, depth: nat) returns (comma: bool, o: Outcome)
    requires ptr <= |json|
    ensures comma || o.Yes? ==> ptr < |json|
    ensures AfterElement(json[ptr..], depth) ==
            if comma then ValidArray(json[ptr + 1..], depth) else Report(o, json, if o.Yes? then ptr + 1 else ptr)
  {
    ReadOne(json, ptr);
    if Char(json, ptr) == ']' {
      return false, Yes;
    }
    if Char(json, ptr) != ',' {
      return false, No;
    }
    ReadOne(json, ptr + 1);
    return Char(json, ptr + 1) != '\0', No;
  }

  method CheckRoot(json: string) returns (valid: bool)
    ensures valid == IsValidRoot(json)
  {
    Reading(json, 0);
    assert json[0..] == json;
    if Char(json, 0) != '{' && Char(json, 0) != '[' {
      return false;
    }
    var o, ptr;
    if Char(json, 0) == '{' {
      o, ptr := IsValidObject(json, 1, 1);
    } else {
      o, ptr := IsValidArray(json, 1, 1);
    }
    Reading(json, ptr);
    return o.Yes? && Char(json, ptr) == '\0';
  }

  // ------------------------------------------------------------ printed strings and numbers

  lemma ValidEscapedChar(c: char, t: string)
    requires c as int < 256
    ensures ValidString(EscapeChar(c) + t) == ValidString(t)
  {
    var e := EscapeChar(c);
    if |e| == 1 {
      assert (e + t)[1..] == t;
    } else if |e| == 2 {
      ShortEscape(c, t, false);
      assert (e + t)[2..] == t && (e + t)[1..][0] == e[1];
    } else {
      LongEscape(c, t);
      HexDigits(Code(c) / 16);
      HexDigits(Code(c) % 16);
      assert (e + t)[6..] == t && (e + t)[1..][0] == 'u';
      assert (e + t)[2] == '0' && (e + t)[3] == '0' && (e + t)[4] == e[4] && (e + t)[5] == e[5];
    }
  }

  lemma HexDigits(d: nat)
    requires d < 16
    ensures HexChar(HexDigit(d))
  {
  }

  lemma ValidPlainChar(c: char, t: string)
    requires c !in {'\"', '\\', '\0'}
    ensures ValidString([c] + t) == ValidString(t)
  {
    assert ([c] + t)[1..] == t;
  }

  lemma {:induction false} ValidBody(s: string, encoded: bool, rest: string)
    requires GoodText(s, encoded)
    ensures ValidString(Body(s, encoded) + (['\"'] + rest)) == Passes(rest)
  {
    if s == [] {
      assert [] + (['\"'] + rest) == ['\"'] + rest;
      assert (['\"'] + rest)[1..] == rest;
    } else {
      ValidBody(s[1..], encoded, rest);
      var t := Body(s[1..], encoded) + (['\"'] + rest);
      if encoded {
        Associative(EscapeChar(s[0]), Escape(s[1..]), ['\"'] + rest);
        ValidEscapedChar(s[0], t);
      } else {
        assert s + (['\"'] + rest) == [s[0]] + t;
        ValidPlainChar(s[0], t);
      }
    }
  }

  lemma ValidQuoted(s: string, encoded: bool, rest: string)
    requires GoodText(s, encoded)
    ensures var t := ['\"'] + Mark(Body(s, encoded), false) + ['\"'] + rest;
      t[0] == '\"' && ValidString(t[1..]) == Passes(rest)
  {
    var b := Body(s, encoded);
    MarkOff(b);
    Regroup(['\"'], b, ['\"'], rest);
    assert (['\"'] + (b + (['\"'] + rest)))[1..] == b + (['\"'] + rest);
    ValidBody(s, encoded, rest);
  }

  /** What may follow a value inside a container. */
  predicate Delimited(rest: string) {
    rest != [] && rest[0] in {',', ']', '}'}
  }

  lemma {:induction false} ValidTail(t: string, decimal: bool, scientific: bool, rest: string)
    requires NumericTail(t, decimal, scientific) && '\0' !in t && Delimited(rest)
    ensures NumberTail(t + rest, decimal, scientific) == Passes(rest)
  {
    var s := t + rest;
    if t == [] {
      assert s == rest;
    } else if t[0] == 'e' || t[0] == 'E' {
      ValidTail(t[2..], decimal, true, rest);
      ExponentStep(t, decimal, rest);
    } else {
      ValidTail(t[1..], decimal || t[0] == '.', scientific, rest);
      assert s[1..] == t[1..] + rest;
    }
  }

  lemma ExponentStep(t: string, decimal: bool, rest: string)
    requires |t| > 1 && (t[0] == 'e' || t[0] == 'E') && (Digit(t[1]) || t[1] in {'-', '+'})
    ensures NumberTail(t + rest, decimal, false) == NumberTail(t[2..] + rest, decimal, true)
  {
    var s := t + rest;
    assert s[2..] == t[2..] + rest && s[1..][0] == t[1];
  }

  lemma {:induction false} HexRun(t: string, rest: string)
    requires Delimited(rest) && forall i | 0 <= i < |t| :: HexChar(t[i])
    ensures SkipHex(t + rest) == rest
  {
    if t == [] {
      assert t + rest == rest;
    } else {
      assert (t + rest)[1..] == t[1..] + rest;
      HexRun(t[1..], rest);
    }
  }

  lemma {:induction false} DigitRun(t: string, rest: string)
    requires Delimited(rest) && forall i | 0 <= i < |t| :: Digit(t[i])
    ensures NumberTail(t + rest, false, false) == Passes(rest)
  {
    if t == [] {
      assert t + rest == rest;
    } else {
      assert (t + rest)[1..] == t[1..] + rest;
      DigitRun(t[1..], rest);
    }
  }

  /** Every text the parser takes for a number is accepted as a whole. */
  lemma ValidNumeral(t: string, rest: string)
    requires IsNumeric(t) && '\0' !in t && Delimited(rest)
    ensures ValidNumber(t + rest) == Passes(rest)
  {
    var s := t + rest;
    assert s[1..] == t[1..] + rest;
    if t[0] == '.' {
      ValidTail(t[1..], true, false, rest);
    } else if t[0] == '+' || t[0] == '-' {
      if t[1] == '0' {
        assert t[1..][1..] == t[2..];
        assert NumericTail(t[1..], false, false);
      }
      ValidTail(t[1..], false, false, rest);
    } else if '1' <= t[0] <= '9' {
      ValidTail(t[1..], false, false, rest);
    } else if |t| == 1 {
      assert t[1..] + rest == rest;
    } else {
      assert s[1..][0] == t[1] && s[2..] == t[2..] + rest;
      if t[1] == '.' {
        ValidTail(t[2..], true, false, rest);
      } else if t[1] == 'e' || t[1] == 'E' {
        assert |t| > 2 && s[2] == t[2];
        assert s[3..] == t[3..] + rest;
        ValidTail(t[3..], false, true, rest);
      } else if t[1] == 'x' {
        HexRun(t[2..], rest);
      } else {
        DigitRun(t[2..], rest);
      }
    }
  }

  // ------------------------------------------------------------ printed trees

  /** The depth of container nesting. */
  function Nesting(v: Value): nat
    decreases v, 0
  {
    match v
    case Array(cs) => 1 + NestingIn(cs)
    case Object(cs) => 1 + NestingIn(cs)
    case _ => 0
  }

  function NestingIn(cs: seq<Node>): nat
    decreases cs, 0
  {
    if cs == [] then 0
    else
      var first, rest := Nesting(cs[0].value), NestingIn(cs[1..]);
      if first > rest then first else rest
  }

  function Verdict'(ok: bool, rest: string): Verdict {
    if ok then Passes(rest) else Fails
  }

  lemma {:induction false} ValidateValue(v: Value, rest: string, depth: nat)
    requires PrintableValue(v) && Delimited(rest) && depth <= MAX_NEST_LEVEL
    ensures ValidMember(RenderValue(v, Compact, false) + rest, depth)
         == Verdict'(depth + Nesting(v) <= MAX_NEST_LEVEL, rest)
    decreases v, 0
  {
    match v
    case Null(n) => ValidateWord(v, rest, depth);
    case Bool(b) => ValidateWord(v, rest, depth);
    case Number(n) => ValidateNumber(n, rest, depth);
    case Str(s, e) => ValidQuoted(s, e, rest);
    case Array(cs) => ValidateArray(cs, rest, depth);
    case Object(cs) => ValidateObject(cs, rest, depth);
  }

  lemma ValidateWord(v: Value, rest: string, depth: nat)
    requires (v.Null? || v.Bool?) && PrintableValue(v) && Delimited(rest)
    ensures ValidMember(RenderValue(v, Compact, false) + rest, depth) == Passes(rest)
  {
    var t := RenderValue(v, Compact, false);
    if t == "" {
      assert t + rest == rest;
    } else {
      ValidateLiteral(t, rest, depth);
    }
  }

  lemma ValidateLiteral(word: string, rest: string, depth: nat)
    requires word in {"true", "false", "null"}
    ensures ValidMember(word + rest, depth) == Passes(rest)
  {
    var s := word + rest;
    assert s[|word|..] == rest;
    assert forall i | 0 <= i < |word| :: s[i] == word[i] && Letter(s[i], word[i]);
    assert Literal(s, word);
  }

  lemma ValidateNumber(n: string, rest: string, depth: nat)
    requires PrintableValue(Number(n)) && Delimited(rest)
    ensures ValidMember(n + rest, depth) == Passes(rest)
  {
    NumeralChars(n);
    ValidNumeral(n, rest);
  }

  lemma {:induction false} ValidateArray(cs: seq<Node>, rest: string, depth: nat)
    requires AllPrintable(cs, true) && depth <= MAX_NEST_LEVEL
    ensures ValidMember(['['] + RenderChildren(cs, Compact, true, false) + [']'] + rest, depth)
         == Verdict'(depth + 1 + NestingIn(cs) <= MAX_NEST_LEVEL, rest)
    decreases cs, 1
  {
    var t := RenderChildren(cs, Compact, true, false) + ([']'] + rest);
    Regroup(['['], RenderChildren(cs, Compact, true, false), [']'], rest);
    FirstOff('[', t);
    if depth < MAX_NEST_LEVEL {
      ValidateElements(cs, rest, depth + 1);
      assert ValidMember(['['] + t, depth) == ValidArray(t, depth + 1);
    }
  }

  lemma {:induction false} ValidateObject(cs: seq<Node>, rest: string, depth: nat)
    requires AllPrintable(cs, false) && depth <= MAX_NEST_LEVEL
    ensures ValidMember(['{'] + RenderChildren(cs, Compact, false, false) + ['}'] + rest, depth)
         == Verdict'(depth + 1 + NestingIn(cs) <= MAX_NEST_LEVEL, rest)
    decreases cs, 1
  {
    var t := RenderChildren(cs, Compact, false, false) + (['}'] + rest);
    Regroup(['{'], RenderChildren(cs, Compact, false, false), ['}'], rest);
    FirstOff('{', t);
    if depth < MAX_NEST_LEVEL {
      ValidateMembers(cs, rest, depth + 1);
      assert ValidMember(['{'] + t, depth) == ValidObject(t, depth + 1);
    }
  }

  lemma FirstOff(c: char, t: string)
    ensures ([c] + t)[0] == c && ([c] + t)[1..] == t
  {
  }

  /** The compact text of a list: its first node, and after a comma the rest. */
  lemma PlainList(cs: seq<Node>, inArray: bool, rest: string)
    requires cs != []
    ensures RenderChildren(cs, Compact, inArray, false) + rest
         == Render(cs[0], Compact, inArray, false)
            + (if |cs| > 1 then [','] + (RenderChildren(cs[1..], Compact, inArray, false) + rest) else rest)
  {
    var first := Render(cs[0], Compact, inArray, false);
    assert "" + first == first;
    assert RenderList(cs, Compact, inArray, false) + "" == RenderList(cs, Compact, inArray, false);
    if |cs| > 1 {
      var tail := RenderList(cs[1..], Compact, inArray, false);
      assert tail + "" == tail;
      Associative(first, [','] + tail, rest);
      Associative([','], tail, rest);
    } else {
      assert first + "" == first;
    }
  }

  /** The first character of what follows the opening of a container. */
  lemma FirstCharacter(cs: seq<Node>, inArray: bool, rest: string)
    requires AllPrintable(cs, inArray) && Delimited(rest)
    ensures At(RenderChildren(cs, Compact, inArray, false) + rest) != '\0'
    ensures cs != [] && inArray && cs[0].value != Null("") ==>
              At(RenderChildren(cs, Compact, inArray, false) + rest) != ']'
    ensures cs != [] && inArray && cs[0].value == Null("") && |cs| > 1
      ==> At(RenderChildren(cs, Compact, inArray, false) + rest) == ','
    ensures cs != [] && !inArray ==> At(RenderChildren(cs, Compact, inArray, false) + rest) == '\"'
  {
    if cs == [] {
      assert "" + rest == rest;
    } else {
      PlainList(cs, inArray, rest);
      if inArray {
        if cs[0].value != Null("") {
          FirstOfValue(cs[0].value);
        }
        assert Render(cs[0], Compact, true, false) == RenderValue(cs[0].value, Compact, false);
      }
    }
  }

  lemma FirstOfValue(v: Value)
    requires PrintableValue(v) && v != Null("")
    ensures RenderValue(v, Compact, false) != [] && RenderValue(v, Compact, false)[0] !in {'\0', ']'}
  {
    if v.Number? {
      NumeralChars(v.text);
    }
  }

  lemma {:induction false} ValidateElements(cs: seq<Node>, rest: string, depth: nat)
    requires AllPrintable(cs, true) && depth <= MAX_NEST_LEVEL
    ensures ValidArray(RenderChildren(cs, Compact, true, false) + ([']'] + rest), depth)
         == Verdict'(depth + NestingIn(cs) <= MAX_NEST_LEVEL, rest)
    decreases cs, 0
  {
    var close := [']'] + rest;
    FirstOff(']', rest);
    if cs == [] {
      assert "" + close == close;
    } else {
      PlainList(cs, true, close);
      FirstCharacter(cs, true, close);
      assert Render(cs[0], Compact, true, false) == RenderValue(cs[0].value, Compact, false);
      if |cs| > 1 {
        var tail := RenderChildren(cs[1..], Compact, true, false) + close;
        FirstOff(',', tail);
        FirstCharacter(cs[1..], true, close);
        ValidateValue(cs[0].value, [','] + tail, depth);
        ValidateElements(cs[1..], rest, depth);
      } else {
        assert NestingIn(cs[1..]) == 0;
        if cs[0].value == Null("") {
          assert "" + close == close;
        } else {
          ValidateValue(cs[0].value, close, depth);
        }
      }
    }
  }

  /** One member, from its opening quote to its value. */
  function AfterValue(v: Verdict, depth: nat): Verdict {
    if v.Passes? then AfterMember(v.rest, depth) else v
  }

  lemma ValidateName(n: Node, rest: string, depth: nat)
    requires GoodText(n.name, n.nameEncoded)
    ensures var s := Render(n, Compact, false, false) + rest;
      var v := RenderValue(n.value, Compact, false) + rest;
      && ValidObject(s, depth) == ValidNamedObject(s, depth)
      && ValidNamedObject(s, depth) == AfterValue(ValidMember(v, depth), depth)
  {
    var v := RenderValue(n.value, Compact, false) + rest;
    Associative(NameText(n, Compact, false, false), RenderValue(n.value, Compact, false), rest);
    assert NameText(n, Compact, false, false) + v
        == ['\"'] + Mark(Body(n.name, n.nameEncoded), false) + ['\"'] + ([':'] + v);
    ValidQuoted(n.name, n.nameEncoded, [':'] + v);
    assert ([':'] + v)[1..] == v;
    assert AfterName([':'] + v, depth) == AfterValue(ValidMember(v, depth), depth);
  }

  lemma {:induction false} ValidateMembers(cs: seq<Node>, rest: string, depth: nat)
    requires AllPrintable(cs, false) && depth <= MAX_NEST_LEVEL
    ensures var s := RenderChildren(cs, Compact, false, false) + (['}'] + rest);
      && ValidObject(s, depth) == Verdict'(depth + NestingIn(cs) <= MAX_NEST_LEVEL, rest)
      && (cs != [] ==> ValidNamedObject(s, depth) == ValidObject(s, depth))
    decreases cs, 0
  {
    var close := ['}'] + rest;
    FirstOff('}', rest);
    if cs == [] {
      assert "" + close == close;
    } else {
      PlainList(cs, false, close);
      if |cs| > 1 {
        var tail := RenderChildren(cs[1..], Compact, false, false) + close;
        FirstOff(',', tail);
        ValidateName(cs[0], [','] + tail, depth);
        ValidateValue(cs[0].value, [','] + tail, depth);
        ValidateMembers(cs[1..], rest, depth);
        assert AfterMember([','] + tail, depth) == ValidNamedObject(tail, depth);
      } else {
        assert NestingIn(cs[1..]) == 0;
        ValidateName(cs[0], close, depth);
        ValidateValue(cs[0].value, close, depth);
        assert AfterMember(close, depth) == Passes(rest);
      }
    }
  }

  /** isValidRoot accepts the unformatted text of a document, and stops exactly at its end, if and only
      if its containers nest at most 128 deep. */
  lemma PrintedTextValidates(n: Node)
    requires Printable(n, true) && (n.value.Array? || n.value.Object?)
    ensures var s := Render(n, Compact, true, false);
      && (IsValidRoot(s) <==> Nesting(n.value) <= MAX_NEST_LEVEL)
      && (Nesting(n.value) <= MAX_NEST_LEVEL ==> ValidRoot(s) == Passes(""))
  {
    var s := Render(n, Compact, true, false);
    assert "" + RenderValue(n.value, Compact, false) == RenderValue(n.value, Compact, false);
    if n.value.Array? {
      var inner := RenderChildren(n.value.elements, Compact, true, false);
      assert s == ['['] + (inner + ([']'] + ""));
      FirstOff('[', inner + ([']'] + ""));
      ValidateElements(n.value.elements, "", 1);
    } else {
      var inner := RenderChildren(n.value.members, Compact, false, false);
      assert s == ['{'] + (inner + (['}'] + ""));
      FirstOff('{', inner + (['}'] + ""));
      ValidateMembers(n.value.members, "", 1);
    }
  }
}
