/**
 JSONStream: cutting a stream of pushed text into the objects handed to the callback.
 */
module JsonStream {
  import opened Wrappers
  import opened JsonParser

  const MAX_STREAM_OBJECTS := 128

  // ------------------------------------------------------------ framing

  /** JSONStream::FindNextRelevant, which also ends at a NUL outside brackets and quotations. */
  function StreamFind(ch: char, s: string): (r: Option<string>)
    ensures r.Some? ==> 0 < |r.value| <= |s|
    decreases |s|
  {
    if s == [] || s[0] == '\0' then None
    else if s[0] == ch then Some(s)
    else if s[0] == '[' || s[0] == '{' then
      var t := SkipBracket(s[0], if s[0] == '[' then ']' else '}', s[1..], 1);
      if t.None? then None else StreamFind(ch, t.value)
    else if s[0] == ']' || s[0] == '}' then None
    else if s[0] == '\"' then
      var t := SkipQuote(s[1..]);
      if t.None? then None else StreamFind(ch, t.value)
    else StreamFind(ch, s[1..])
  }

  predicate Opener(c: char) {
    c == '{' || c == '['
  }

  function Closer(c: char): char {
    if c == '[' then ']' else '}'
  }

  /** buffer.find_first_of("{["). */
  function FindOpener(s: string): (r: Option<nat>)
    ensures r.Some? ==> r.value < |s| && Opener(s[r.value])
  {
    if s == [] then None
    else if Opener(s[0]) then Some(0)
    else
      var r := FindOpener(s[1..]);
      if r.None? then None else Some(r.value + 1)
  }

  /** Where the first complete object of the buffer starts, and the index of its closing bracket. */
  function FirstFrame(s: string): (r: Option<(nat, nat)>)
    ensures r.Some? ==> r.value.0 < r.value.1 < |s|
  {
    var pos := FindOpener(s);
    if pos.None? then None
    else
      var rest := StreamFind(Closer(s[pos.value]), s[pos.value + 1..]);
      if rest.None? then None else Some((pos.value, |s| - |rest.value|))
  }

  /** The objects in a text, in order. After an object its closing bracket stays in the buffer. */
  function Frames(s: string): seq<string>
    decreases |s|
  {
    var f := FirstFrame(s);
    if f.None? then [] else [s[f.value.0..f.value.1 + 1]] + Frames(s[f.value.1..])
  }

  /** What is left of a text once its objects have been cut out. */
  function Residue(s: string): string
    decreases |s|
  {
    var f := FirstFrame(s);
    if f.None? then s else Residue(s[f.value.1..])
  }

  lemma FramesStep(s: string)
    requires FirstFrame(s).Some?
    ensures var (pos, end) := FirstFrame(s).value;
            Frames(s) == [s[pos..end + 1]] + Frames(s[end..]) && Residue(s) == Residue(s[end..])
  {
  }

  // Whatever has been found stays found when more text arrives.

  lemma {:induction false} SkipQuoteExtends(s: string, more: string)
    requires SkipQuote(s).Some?
    ensures SkipQuote(s + more) == Some(SkipQuote(s).value + more)
  {
    assert (s + more)[1..] == s[1..] + more;
    if s[0] != '\"' {
      SkipQuoteExtends(s[1..], more);
    }
  }

  lemma {:induction false} SkipBracketExtends(l: char, r: char, s: string, depth: nat, more: string)
    requires SkipBracket(l, r, s, depth).Some?
    ensures SkipBracket(l, r, s + more, depth) == Some(SkipBracket(l, r, s, depth).value + more)
    decreases |s|
  {
    if depth > 0 {
      assert (s + more)[1..] == s[1..] + more;
      if s[0] == r {
        SkipBracketExtends(l, r, s[1..], depth - 1, more);
      } else if s[0] == l {
        SkipBracketExtends(l, r, s[1..], depth + 1, more);
      } else if s[0] == '\"' {
        SkipQuoteExtends(s[1..], more);
        SkipBracketExtends(l, r, SkipQuote(s[1..]).value, depth, more);
      } else {
        SkipBracketExtends(l, r, s[1..], depth, more);
      }
    }
  }

  lemma {:induction false} StreamFindExtends(ch: char, s: string, more: string)
    requires StreamFind(ch, s).Some?
    ensures StreamFind(ch, s + more) == Some(StreamFind(ch, s).value + more)
    decreases |s|
  {
    if s[0] != ch {
      assert (s + more)[1..] == s[1..] + more;
      if s[0] == '[' || s[0] == '{' {
        var r := if s[0] == '[' then ']' else '}';
        SkipBracketExtends(s[0], r, s[1..], 1, more);
        StreamFindExtends(ch, SkipBracket(s[0], r, s[1..], 1).value, more);
      } else if s[0] == '\"' {
        SkipQuoteExtends(s[1..], more);
        StreamFindExtends(ch, SkipQuote(s[1..]).value, more);
      } else {
        StreamFindExtends(ch, s[1..], more);
      }
    }
  }

  lemma {:induction false} FindOpenerExtends(s: string, more: string)
    requires FindOpener(s).Some?
    ensures FindOpener(s + more) == FindOpener(s)
  {
    if !Opener(s[0]) {
      assert (s + more)[1..] == s[1..] + more;
      FindOpenerExtends(s[1..], more);
    }
  }

  lemma FirstFrameExtends(s: string, more: string)
    requires FirstFrame(s).Some?
    ensures FirstFrame(s + more) == FirstFrame(s)
  {
    var pos := FindOpener(s).value;
    FindOpenerExtends(s, more);
    assert (s + more)[pos + 1..] == s[pos + 1..] + more;
    StreamFindExtends(Closer(s[pos]), s[pos + 1..], more);
  }

  /** Cutting a text in two does not change its objects: those of the first part come first, and the rest
      is found in what the first part left followed by the second. */
  lemma {:induction false} FramesSplit(a: string, b: string)
    ensures Frames(a + b) == Frames(a) + Frames(Residue(a) + b)
    ensures Residue(a + b) == Residue(Residue(a) + b)
    decreases |a|
  {
    var f := FirstFrame(a);
    if f.Some? {
      var (pos, end) := f.value;
      FirstFrameExtends(a, b);
      assert (a + b)[pos..end + 1] == a[pos..end + 1];
      assert (a + b)[end..] == a[end..] + b;
      FramesStep(a);
      FramesStep(a + b);
      FramesSplit(a[end..], b);
      Associative([a[pos..end + 1]], Frames(a[end..]), Frames(Residue(a) + b));
    } else {
      assert Frames(a) + Frames(a + b) == Frames(a + b);
    }
  }

  // ------------------------------------------------------------ the stream object

  /** What is observable of a stream: its buffer, whether it still accepts text, and the objects
      handed to the callback so far. */
  datatype State = State(buffer: string, state: bool, delivered: seq<string>)

  /** Whether the check of the unfinished rest passes; it is made from the first opening bracket on. */
  predicate RestOk(partialOk: string -> bool, rest: string) {
    FindOpener(rest).None? || partialOk(rest[FindOpener(rest).value..])
  }

  /** The buffer after cutting out n objects. */
  function Cut(s: string, n: nat): string {
    if n == 0 then s
    else
      var rest := Cut(s, n - 1);
      var f := FirstFrame(rest);
      if f.None? then rest else rest[f.value.1..]
  }

  /** parse(): cutting the objects out of the buffer and checking what is left. */
  function Settle(partialOk: string -> bool, all: string, delivered: seq<string>): State {
    var fs := Frames(all);
    if |fs| > MAX_STREAM_OBJECTS then
      State(Cut(all, MAX_STREAM_OBJECTS), false, delivered + fs[..MAX_STREAM_OBJECTS])
    else
      State(Residue(all), RestOk(partialOk, Residue(all)), delivered + fs)
  }

  /** operator<<: one push. */
  function Push(partialOk: string -> bool, st: State, str: string): State {
    if !st.state then st else Settle(partialOk, st.buffer + str, st.delivered)
  }

  /** After the first objects of all have been cut out, buffer is what is left. */
  ghost predicate CutSoFar(all: string, buffer: string, objects: nat) {
    && objects <= |Frames(all)|
    && Frames(all)[objects..] == Frames(buffer)
    && Residue(all) == Residue(buffer)
    && buffer == Cut(all, objects)
  }

  lemma CutOneMore(all: string, buffer: string, objects: nat)
    requires CutSoFar(all, buffer, objects) && FirstFrame(buffer).Some?
    ensures var (pos, end) := FirstFrame(buffer).value;
      && objects < |Frames(all)|
      && Frames(all)[objects] == buffer[pos..end + 1]
      && CutSoFar(all, buffer[end..], objects + 1)
  {
    var (pos, end) := FirstFrame(buffer).value;
    var fs := Frames(buffer);
    assert fs[0] == buffer[pos..end + 1] && fs[1..] == Frames(buffer[end..]);
    assert Frames(all)[objects..][0] == fs[0] && Frames(all)[objects..][1..] == Frames(all)[objects + 1..];
    assert Cut(all, objects + 1) == buffer[end..];
  }

  /** The objects are cut out and the limit is not exceeded. */
  lemma SettledAt(partialOk: string -> bool, all: string, buffer: string, objects: nat, was: seq<string>)
    requires CutSoFar(all, buffer, objects) && objects <= MAX_STREAM_OBJECTS && FirstFrame(buffer).None?
    ensures Settle(partialOk, all, was) == State(buffer, RestOk(partialOk, buffer), was + Frames(all)[..objects])
  {
    assert |Frames(all)[objects..]| == 0;
    assert Frames(all)[..objects] == Frames(all);
  }

  /** There is one object too many. */
  lemma SettledOver(partialOk: string -> bool, all: string, buffer: string, was: seq<string>)
    requires CutSoFar(all, buffer, MAX_STREAM_OBJECTS) && FirstFrame(buffer).Some?
    ensures Settle(partialOk, all, was) == State(buffer, false, was + Frames(all)[..MAX_STREAM_OBJECTS])
  {
    CutOneMore(all, buffer, MAX_STREAM_OBJECTS);
  }

  lemma DeliverMore(was: seq<string>, fs: seq<string>, n: nat)
    requires n < |fs|
    ensures was + fs[..n] + [fs[n]] == was + fs[..n + 1]
  {
    assert fs[..n + 1] == fs[..n] + [fs[n]];
  }

  class JsonStream {
    var buffer: string
    var state: bool
    var delivered: seq<string>
    const partialOk: string -> bool

    function Abs(): State
      reads this
    {
      State(buffer, state, delivered)
    }

    constructor (partialOk: string -> bool)
      ensures Abs() == State("", true, []) && this.partialOk == partialOk
    {
      this.partialOk := partialOk;
      buffer, state, delivered := "", true, [];
    }

    /** operator<<. */
    method PushText(str: string)
      modifies this
      ensures Abs() == Push(partialOk, old(Abs()), str)
    {
      if state {
        buffer := buffer + str;
        Parse();
      }
    }

    method Parse()
      requires state
      modifies this
      ensures Abs() == Settle(partialOk, old(buffer), old(delivered))
    {
      var objects := 0;
      ghost var all, was := buffer, delivered;
      var done := false;
      assert was + Frames(all)[..0] == was;
      while !done
        invariant done ==> Abs() == Settle(partialOk, all, was)
        invariant !done ==> state && objects <= MAX_STREAM_OBJECTS && CutSoFar(all, buffer, objects)
        invariant !done ==> delivered == was + Frames(all)[..objects]
        decreases !done, |buffer|
      {
        done := ParseOne(objects, all, was);
        objects := objects + 1;
      }
    }

    /** The body of the loop; it says whether the loop is left. */
    method ParseOne(objects: nat, ghost all: string, ghost was: seq<string>) returns (done: bool)
      requires state && objects <= MAX_STREAM_OBJECTS && CutSoFar(all, buffer, objects)
      requires delivered == was + Frames(all)[..objects]
      modifies this
      ensures done ==> Abs() == Settle(partialOk, all, was)
      ensures !done ==> state && objects + 1 <= MAX_STREAM_OBJECTS && CutSoFar(all, buffer, objects + 1)
      ensures !done ==> delivered == was + Frames(all)[..objects + 1] && |buffer| < |old(buffer)|
    {
      var pos, end := Locate();
      if pos.None? {
        SettledAt(partialOk, all, buffer, objects, was);
        return true;
      }
      if end.None? {
        SettledAt(partialOk, all, buffer, objects, was);
        state := partialOk(buffer[pos.value..]);
        return true;
      }
      if objects + 1 > MAX_STREAM_OBJECTS {
        SettledOver(partialOk, all, buffer, was);
        state := false;
        return true;
      }
      CutOut(pos.value, end.value, objects, all, was);
      return false;
    }

    /** The callback and the erase. */
    method CutOut(pos: nat, end: int, objects: nat, ghost all: string, ghost was: seq<string>)
      requires CutSoFar(all, buffer, objects) && delivered == was + Frames(all)[..objects]
      requires FirstFrame(buffer) == Some((pos, end))
      modifies this
      ensures state == old(state) && |buffer| < |old(buffer)|
      ensures CutSoFar(all, buffer, objects + 1) && delivered == was + Frames(all)[..objects + 1]
    {
      CutOneMore(all, buffer, objects);
      DeliverMore(was, Frames(all), objects);
      delivered := delivered + [buffer[pos..end + 1]];
      buffer := buffer[end..];
    }

    /** The opening bracket and the closing one that belongs to it. */
    method Locate() returns (pos: Option<nat>, end: Option<int>)
      ensures pos == FindOpener(buffer)
      ensures end == if FirstFrame(buffer).None? then None else Some(FirstFrame(buffer).value.1)
      ensures end.Some? ==> pos.Some? && FirstFrame(buffer).value.0 == pos.value
    {
      pos := FindFirstOf(buffer);
      if pos.None? {
        return None, None;
      }
      end := FindNext(Closer(buffer[pos.value]), buffer, pos.value + 1);
    }

    method FindFirstOf(s: string) returns (pos: Option<nat>)
      ensures pos == FindOpener(s)
    {
      assert s[0..] == s;
      for i := 0 to |s|
        invariant FindOpener(s) == (var r := FindOpener(s[i..]); if r.None? then None else Some(r.value + i))
      {
        assert s[i..][1..] == s[i + 1..];
        if Opener(s[i]) {
          return Some(i);
        }
      }
      return None;
    }

    method FindNext(ch: char, value: string, start: nat) returns (end: Option<int>)
      requires start <= |value|
      ensures Points(value, end, StreamFind(ch, value[start..]))
    {
      var p := start;
      while p < |value| && value[p] != '\0'
        invariant start <= p <= |value|
        invariant StreamFind(ch, value[start..]) == StreamFind(ch, value[p..])
        decreases |value| - p
      {
        assert value[p..][0] == value[p] && value[p..][1..] == value[p + 1..];
        if value[p] == ch {
          return Some(p);
        }
        if value[p] == '[' || value[p] == '{' {
          var q := SkipBracketFrom(value[p], if value[p] == '[' then ']' else '}', value, p + 1);
          if q.None? {
            return None;
          }
          p := q.value;
        } else if value[p] == ']' || value[p] == '}' {
          return None;
        } else if value[p] == '\"' {
          var q := SkipQuoteFrom(value, p + 1);
          if q.None? {
            return None;
          }
          p := q.value;
        } else {
          p := p + 1;
        }
      }
      return None;
    }
  }

  // ------------------------------------------------------------ whole runs

  function Run(partialOk: string -> bool, pushes: seq<string>): State {
    if pushes == [] then State("", true, [])
    else Push(partialOk, Run(partialOk, pushes[..|pushes| - 1]), pushes[|pushes| - 1])
  }

  function Concat(pushes: seq<string>): string {
    if pushes == [] then "" else Concat(pushes[..|pushes| - 1]) + pushes[|pushes| - 1]
  }

  lemma Settled(partialOk: string -> bool, all: string, delivered: seq<string>)
    ensures var st := Settle(partialOk, all, delivered);
      && (st.state ==> st.delivered == delivered + Frames(all) && st.buffer == Residue(all))
      && st.delivered <= delivered + Frames(all)
  {
    var fs := Frames(all);
    if |fs| > MAX_STREAM_OBJECTS {
      Associative(delivered, fs[..MAX_STREAM_OBJECTS], fs[MAX_STREAM_OBJECTS..]);
      assert fs == fs[..MAX_STREAM_OBJECTS] + fs[MAX_STREAM_OBJECTS..];
    }
  }

  /** A run without an error callback has handed out exactly the objects of the whole text pushed, and
      any run has handed out an initial part of them. */
  lemma {:induction false} DeliveredByRun(partialOk: string -> bool, pushes: seq<string>)
    ensures Run(partialOk, pushes).state ==>
      && Run(partialOk, pushes).delivered == Frames(Concat(pushes))
      && Run(partialOk, pushes).buffer == Residue(Concat(pushes))
    ensures Run(partialOk, pushes).delivered <= Frames(Concat(pushes))
  {
    if pushes != [] {
      var before, last := pushes[..|pushes| - 1], pushes[|pushes| - 1];
      DeliveredByRun(partialOk, before);
      FramesSplit(Concat(before), last);
      var st := Run(partialOk, before);
      if st.state {
        Settled(partialOk, st.buffer + last, st.delivered);
      }
    }
  }

  predicate FirstOpenerAt(s: string, pos: nat) {
    pos < |s| && Opener(s[pos]) && forall i | 0 <= i < pos :: !Opener(s[i])
  }

  /** An unfinished text passes the check from its first opening bracket on, if it has one. */
  ghost predicate Unfinished(partialOk: string -> bool, rest: string) {
    forall pos: nat | FirstOpenerAt(rest, pos) :: partialOk(rest[pos..])
  }

  lemma {:induction false} FindOpenerIs(s: string)
    ensures match FindOpener(s)
            case None => forall pos: nat :: !FirstOpenerAt(s, pos)
            case Some(p) => FirstOpenerAt(s, p) && forall pos: nat | FirstOpenerAt(s, pos) :: pos == p
  {
    if s != "" && !Opener(s[0]) {
      FindOpenerIs(s[1..]);
      forall pos: nat
        ensures FirstOpenerAt(s, pos) <==> pos > 0 && FirstOpenerAt(s[1..], pos - 1)
      {
        OpenerBehind(s, pos);
      }
    }
  }

  lemma OpenerBehind(s: string, pos: nat)
    requires s != "" && !Opener(s[0])
    ensures FirstOpenerAt(s, pos) <==> pos > 0 && FirstOpenerAt(s[1..], pos - 1)
  {
    if pos > 0 && FirstOpenerAt(s[1..], pos - 1) {
      forall i | 0 <= i < pos
        ensures !Opener(s[i])
      {
        assert i > 0 ==> s[i] == s[1..][i - 1];
      }
    } else if FirstOpenerAt(s, pos) {
      forall i | 0 <= i < pos - 1
        ensures !Opener(s[1..][i])
      {
        assert s[1..][i] == s[i + 1];
      }
    }
  }

  /** Push number k completes no more than 128 objects, and what it leaves passes the check. */
  ghost predicate PushIsOk(partialOk: string -> bool, pushes: seq<string>, k: nat)
    requires k < |pushes|
  {
    && |Frames(Concat(pushes[..k + 1]))| <= |Frames(Concat(pushes[..k]))| + 128
    && Unfinished(partialOk, Residue(Concat(pushes[..k + 1])))
  }

  /** When a run is without an error callback. */
  lemma {:induction false} NoErrorIff(partialOk: string -> bool, pushes: seq<string>)
    ensures Run(partialOk, pushes).state <==> forall k: nat | k < |pushes| :: PushIsOk(partialOk, pushes, k)
  {
    if pushes != [] {
      var n := |pushes| - 1;
      var before := pushes[..n];
      NoErrorIff(partialOk, before);
      SamePushes(partialOk, pushes);
      assert before + [pushes[n]] == pushes == pushes[..n + 1];
      if Run(partialOk, before).state {
        LastPush(partialOk, before, pushes[n]);
      }
    }
  }

  lemma SamePushes(partialOk: string -> bool, pushes: seq<string>)
    requires pushes != []
    ensures var n := |pushes| - 1;
      (forall k: nat | k < |pushes| :: PushIsOk(partialOk, pushes, k)) <==>
      (forall k: nat | k < n :: PushIsOk(partialOk, pushes[..n], k)) && PushIsOk(partialOk, pushes, n)
  {
    var n := |pushes| - 1;
    forall k: nat | k < n
      ensures PushIsOk(partialOk, pushes[..n], k) == PushIsOk(partialOk, pushes, k)
    {
      assert pushes[..n][..k] == pushes[..k] && pushes[..n][..k + 1] == pushes[..k + 1];
    }
  }

  /** What one more push does: it hands out the objects that it completes, but no more than 128 of them. */
  lemma LastPush(partialOk: string -> bool, before: seq<string>, last: string)
    requires Run(partialOk, before).state
    ensures var (earlier, now) := (Frames(Concat(before)), Frames(Concat(before + [last])));
      var st := Run(partialOk, before + [last]);
      && (st.state <==> |now| <= |earlier| + 128 && Unfinished(partialOk, Residue(Concat(before + [last]))))
      && st.delivered == now[..if |now| <= |earlier| + 128 then |now| else |earlier| + 128]
  {
    var pushes := before + [last];
    assert pushes[..|pushes| - 1] == before;
    DeliveredByRun(partialOk, before);
    FramesSplit(Concat(before), last);
    var all := Residue(Concat(before)) + last;
    SettledIff(partialOk, all, Frames(Concat(before)));
    Capped(Frames(Concat(before)), Frames(all));
  }

  lemma SettledIff(partialOk: string -> bool, all: string, was: seq<string>)
    ensures var (st, fs) := (Settle(partialOk, all, was), Frames(all));
      && (st.state <==> |fs| <= 128 && Unfinished(partialOk, Residue(all)))
      && st.delivered == was + fs[..if |fs| <= 128 then |fs| else 128]
  {
    assert Frames(all)[..|Frames(all)|] == Frames(all);
    FindOpenerIs(Residue(all));
  }

  lemma Capped(a: seq<string>, b: seq<string>)
    ensures a + b[..if |b| <= 128 then |b| else 128] ==
            (a + b)[..if |a + b| <= |a| + 128 then |a + b| else |a| + 128]
  {
  }

  /** After an error nothing more is taken in. */
  lemma {:induction false} ErrorIsFinal(partialOk: string -> bool, pushes: seq<string>, more: seq<string>)
    requires !Run(partialOk, pushes).state
    ensures Run(partialOk, pushes + more) == Run(partialOk, pushes)
    decreases |more|
  {
    if more == [] {
      assert pushes + more == pushes;
    } else {
      var front := more[..|more| - 1];
      ErrorIsFinal(partialOk, pushes, front);
      assert (pushes + more)[..|pushes + more| - 1] == pushes + front;
    }
  }

  /** Framing does not depend on how the text is split into pushes. */
  lemma FramingIsChunkIndependent(partialOk: string -> bool, p: seq<string>, q: seq<string>)
    requires Concat(p) == Concat(q)
    requires Run(partialOk, p).state && Run(partialOk, q).state
    ensures Run(partialOk, p).delivered == Run(partialOk, q).delivered
    ensures Run(partialOk, p).buffer == Run(partialOk, q).buffer
  {
    DeliveredByRun(partialOk, p);
    DeliveredByRun(partialOk, q);
  }
}
