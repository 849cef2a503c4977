/**
 The loop of mg_upload that writes the data of one file while it looks for the boundary that ends it
 (section 5.1.1 of RFC 2046).
 */
module Multipart {

  const MG_BUF_LEN := 8192
  const MAX_BOUNDARY := 99

  /** The delimiter starts at p, and at least one more byte follows it. */
  predicate OccursAt(s: string, delimiter: string, p: int) {
    0 <= p && p + |delimiter| < |s| && s[p..p + |delimiter|] == delimiter
  }

  predicate IsFirst(s: string, delimiter: string, p: int) {
    OccursAt(s, delimiter, p) && forall q | 0 <= q < p :: !OccursAt(s, delimiter, q)
  }

  /** The delimiter starts at p, whatever follows. */
  predicate StandsAt(s: string, delimiter: string, p: int) {
    0 <= p && p + |delimiter| <= |s| && s[p..p + |delimiter|] == delimiter
  }

  predicate Nowhere(s: string, delimiter: string) {
    forall q | 0 <= q < |s| :: !OccursAt(s, delimiter, q)
  }

  /** The first delimiter of a text is found if and only if a byte follows it. At the very end of the text it is
      missed, and no other is found. */
  lemma FirstIsFoundIff(s: string, delimiter: string, p: nat)
    requires StandsAt(s, delimiter, p) && forall q | 0 <= q < p :: !StandsAt(s, delimiter, q)
    ensures IsFirst(s, delimiter, p) <==> p + |delimiter| < |s|
    ensures Nowhere(s, delimiter) <==> p + |delimiter| == |s|
  {
    forall q | 0 <= q < |s| && OccursAt(s, delimiter, q)
      ensures q >= p
    {
      assert StandsAt(s, delimiter, q);
    }
    assert p + |delimiter| < |s| ==> OccursAt(s, delimiter, p) && p < |s|;
  }

  /** A body that ends with its delimiter. */
  lemma LastDelimiterIsMissed()
    ensures StandsAt("x\r\n--b", "\r\n--b", 1) && Nowhere("x\r\n--b", "\r\n--b")
  {
    var s, delimiter := "x\r\n--b", "\r\n--b";
    assert s[0..5][0] == 'x' && s[1..6] == delimiter;
    FirstIsFoundIff(s, delimiter, 1);
  }

  /** The body of a request as mg_read delivers it: in pieces of any size. The environment decides which reads fail:
      failures(n) is true when the n-th one does. */
  class Connection {
    const body: string
    const failures: nat -> bool
    var pos: nat
    var asked: nat
    var failed: bool

    constructor (body: string, failures: nat -> bool)
      ensures this.body == body && this.failures == failures && pos == 0 && asked == 0 && !failed
    {
      this.body, this.failures := body, failures;
      pos, asked, failed := 0, 0, false;
    }

    function Unread(): string
      reads this
    {
      if pos <= |body| then body[pos..] else ""
    }

    /** mg_read: no more than max bytes, and at least one unless the body is at its end or the read fails. */
    method Read(max: nat) returns (data: string)
      requires pos <= |body|
      modifies this
      ensures pos <= |body| && |data| <= max && pos == old(pos) + |data|
      ensures data == body[old(pos)..pos]
      ensures asked == old(asked) + 1 && failed == (old(failed) || failures(old(asked)))
      ensures data == "" <==> max == 0 || old(pos) == |body| || failures(old(asked))
      ensures forall first: nat | first <= old(asked) ::
                FailedSince(first) <==> old(FailedSince(first)) || failures(old(asked))
    {
      var fails := failures(asked);
      asked, failed := asked + 1, failed || fails;
      if fails || max == 0 || pos == |body| {
        return "";
      }
      assert 0 < 1 <= max && 1 <= |body| - pos;
      var n: nat :| 0 < n <= max && n <= |body| - pos;
      data := body[pos..pos + n];
      pos := pos + n;
    }

    /** Some read since the given one has failed. */
    ghost predicate FailedSince(first: nat)
      reads this
    {
      exists k: nat :: first <= k < asked && failures(k)
    }
  }

  /** memmove to the beginning of the buffer. */
  method MoveDown(a: array<char>, from: nat, n: nat)
    requires from + n <= a.Length
    modifies a
    ensures a[..n] == old(a[from..from + n])
  {
    for i := 0 to n
      invariant forall k | 0 <= k < i :: a[k] == old(a[from + k])
      invariant forall k | i <= k < a.Length :: a[k] == old(a[k])
    {
      a[i] := a[from + i];
    }
  }

  class Upload {
    const buf: array<char>
    const boundary: string
    var len: nat
    var file: string

    ghost predicate Valid()
      reads this
    {
      buf.Length == MG_BUF_LEN && len <= MG_BUF_LEN && 0 < |boundary| <= MAX_BOUNDARY
    }

    function Buffered(): string
      requires Valid()
      reads this, buf
    {
      buf[..len]
    }

    /** The outcome of a file whose boundary starts at p: what stands before the delimiter is written,
        what stands behind it is in the buffer. */
    ghost predicate Ended(received: string, p: int)
      reads this, buf
      requires Valid()
    {
      && IsFirst(received, Delimiter(), p)
      && file == received[..p]
      && Buffered() == received[p + |Delimiter()|..]
    }

    /** No boundary so far: everything received is written or buffered, and the tail of the buffer is long
        enough to hold an unfinished delimiter. */
    ghost predicate Pending(received: string)
      reads this, buf
      requires Valid()
    {
      && Nowhere(received, Delimiter())
      && received == file + Buffered()
      && len <= |Delimiter()|
      && (file == "" || len == |Delimiter()|)
    }

    function Delimiter(): (d: string)
      ensures |d| == |boundary| + 4
    {
      "\r\n--" + boundary
    }

    /** Starts with the bytes that the header reader left in the buffer. */
    constructor (boundary: string, rest: string)
      requires 0 < |boundary| <= MAX_BOUNDARY && |rest| <= MG_BUF_LEN
      ensures Valid() && this.boundary == boundary && file == "" && Buffered() == rest && fresh(buf)
    {
      this.boundary := boundary;
      len := |rest|;
      file := "";
      buf := new char[MG_BUF_LEN](i => if 0 <= i < |rest| then rest[i] else '\0');
      new;
      assert forall i | 0 <= i < |rest| :: buf[i] == rest[i];
    }

    /** The for loop: the first position at which the delimiter stands with a byte behind it. */
    method FindBoundary() returns (found: bool, i: nat)
      requires Valid()
      ensures found ==> IsFirst(Buffered(), Delimiter(), i)
      ensures !found ==> Nowhere(Buffered(), Delimiter())
    {
      var bl := |boundary| + 4;
      i := 0;
      while i + bl < len
        invariant forall q | 0 <= q < i :: !OccursAt(buf[..len], Delimiter(), q)
      {
        ComparesInTwo(buf[..len], i, "\r\n--", boundary);
        SliceOfBuffer(buf, len, i, i + 4);
        SliceOfBuffer(buf, len, i + 4, i + bl);
        if buf[i..i + 4] == "\r\n--" && buf[i + 4..i + bl] == boundary {
          return true, i;
        }
        i := i + 1;
      }
      return false, i;
    }

    /** fwrite of the first n buffered bytes, then memmove of what stands behind the first skip bytes. */
    method WriteOut(n: nat, skip: nat)
      requires Valid() && n <= skip <= len
      modifies this, buf
      ensures Valid() && len == old(len) - skip
      ensures file == old(file + Buffered()[..n])
      ensures Buffered() == old(Buffered()[skip..])
    {
      file := file + buf[..n];
      MoveDown(buf, skip, len - skip);
      len := len - skip;
    }

    /** One round on the buffered bytes. Everything received so far is the file followed by the buffer, and
        the part already written holds no start of a delimiter. */
    method ScanBuffer(ghost received: string) returns (eof: bool, ghost p: int)
      requires Valid() && received == file + Buffered()
      requires file == "" || |Delimiter()| <= len
      requires forall q | 0 <= q < |file| :: !OccursAt(received, Delimiter(), q)
      modifies this, buf
      ensures Valid()
      ensures eof ==> Ended(received, p)
      ensures !eof ==> Pending(received)
    {
      var bl := |boundary| + 4;
      ghost var was, data := file, Buffered();
      var found, i := FindBoundary();
      p := |was| + i;
      if found {
        FoundAt(was, data, Delimiter(), i);
        WriteOut(i, i + bl);
        return true, p;
      }
      NotBefore(was, data, Delimiter(), |data|);
      KeepTail();
      return false, p;
    }

    /** Without a boundary, all but the last bytes that an unfinished delimiter could occupy are written. */
    method KeepTail()
      requires Valid() && (file == "" || |Delimiter()| <= len)
      modifies this, buf
      ensures Valid() && file + Buffered() == old(file + Buffered())
      ensures len <= |Delimiter()| && (file == "" || len == |Delimiter()|)
    {
      var bl := |boundary| + 4;
      if len > bl {
        ghost var data := Buffered();
        WriteOut(len - bl, len - bl);
        assert data == data[..|data| - bl] + data[|data| - bl..];
      }
    }

    /** The do-while loop over the reads. */
    method WriteFile(conn: Connection) returns (eof: bool, ghost received: string, ghost p: int)
      requires Valid() && file == "" && conn.pos <= |conn.body| && !conn.failed
      modifies this, buf, conn
      ensures Valid() && old(conn.pos) <= conn.pos <= |conn.body|
      ensures conn.failed == conn.FailedSince(old(conn.asked))
      ensures received == old(Buffered()) + conn.body[old(conn.pos)..conn.pos]
      ensures eof ==> Ended(received, p)
      ensures !eof ==> Pending(received) && (conn.pos == |conn.body| || conn.failed)
    {
      received := Buffered();
      assert file + received == received;
      eof, p := ScanBuffer(received);
      ghost var start := received;
      while !eof
        invariant Valid() && old(conn.pos) <= conn.pos <= |conn.body|
        invariant conn.failed == conn.FailedSince(old(conn.asked)) && old(conn.asked) <= conn.asked
        invariant received == start + conn.body[old(conn.pos)..conn.pos]
        invariant eof ==> Ended(received, p)
        invariant !eof ==> Pending(received)
        decreases !eof, |conn.body| - conn.pos
      {
        var data := conn.Read(MG_BUF_LEN - len);
        if data == "" {
          break;
        }
        Grown(start, conn.body, old(conn.pos), conn.pos - |data|, conn.pos);
        eof, p := TakeIn(data, received);
        received := received + data;
      }
    }

    /** The same, with the outcome of the run for everything that there was to read. Without a failing read the
        boundary is found if and only if there is one. */
    method ReadAll(conn: Connection, ghost whole: string) returns (eof: bool, ghost o: Outcome)
      requires Valid() && file == "" && conn.pos <= |conn.body| && !conn.failed && whole == Buffered() + conn.Unread()
      modifies this, buf, conn
      ensures Valid() && conn.pos <= |conn.body| && o.eof == eof && o.file == file && o.buffered == Buffered()
      ensures conn.failed == conn.FailedSince(old(conn.asked))
      ensures eof || !conn.failed ==>
                && IsOutcome(whole, Delimiter(), o) && conn.Unread() == whole[|o.received|..]
                && (eof <==> exists p :: IsFirst(whole, Delimiter(), p))
    {
      ghost var rest, from := Buffered(), conn.pos;
      ghost var received, p;
      eof, received, p := WriteFile(conn);
      o := Outcome(received, eof, p, file, Buffered());
      Received(rest, conn.body, from, conn.pos);
      if eof {
        FirstInPrefix(received, whole, Delimiter(), p);
      }
    }

    /** len += n and another round. */
    method TakeIn(data: string, ghost received: string) returns (eof: bool, ghost p: int)
      requires Valid() && Pending(received) && len + |data| <= MG_BUF_LEN
      modifies this, buf
      ensures Valid()
      ensures eof ==> Ended(received + data, p)
      ensures !eof ==> Pending(received + data)
    {
      Extend(received, data, Delimiter(), |file|);
      Store(data);
      eof, p := ScanBuffer(received + data);
    }

    /** mg_read stores its bytes behind those already in the buffer. */
    method Store(data: string)
      requires Valid() && len + |data| <= MG_BUF_LEN
      modifies this`len, buf
      ensures Valid() && len == old(len) + |data|
      ensures Buffered() == old(Buffered()) + data
    {
      for i := 0 to |data|
        invariant len == old(len)
        invariant forall k | 0 <= k < len :: buf[k] == old(buf[k])
        invariant forall k | 0 <= k < i :: buf[len + k] == data[k]
      {
        buf[len + i] := data[i];
      }
      len := len + |data|;
    }
  }

  lemma Grown(start: string, body: string, a: nat, b: nat, c: nat)
    requires a <= b <= c <= |body|
    ensures start + body[a..b] + body[b..c] == start + body[a..c]
  {
  }

  lemma SliceOfBuffer(a: array<char>, n: nat, i: nat, j: nat)
    requires i <= j <= n <= a.Length
    ensures a[..n][i..j] == a[i..j]
  {
    forall k | 0 <= k < j - i
      ensures a[..n][i..j][k] == a[i..j][k]
    {
      assert a[..n][i..j][k] == a[i + k];
    }
  }

  /** The two memcmp calls compare the whole delimiter. */
  lemma ComparesInTwo(s: string, i: nat, a: string, b: string)
    requires i + |a| + |b| < |s|
    ensures OccursAt(s, a + b, i) <==> s[i..i + |a|] == a && s[i + |a|..i + |a| + |b|] == b
  {
    var part := s[i..i + |a| + |b|];
    assert part[..|a|] == s[i..i + |a|] && part[|a|..] == s[i + |a|..i + |a| + |b|];
    assert part == part[..|a|] + part[|a|..];
    assert (a + b)[..|a|] == a && (a + b)[|a|..] == b;
  }

  /** Positions in the buffer are positions in what was received, shifted by what was written. */
  lemma Shift(written: string, data: string, delimiter: string, q: nat)
    ensures OccursAt(written + data, delimiter, |written| + q) <==> OccursAt(data, delimiter, q)
  {
    if q + |delimiter| <= |data| {
      assert (written + data)[|written| + q..|written| + q + |delimiter|] == data[q..q + |delimiter|];
    }
  }

  /** No delimiter starts in the written part nor at the first n positions of the buffer. */
  lemma NotBefore(written: string, data: string, delimiter: string, n: nat)
    requires forall q | 0 <= q < |written| :: !OccursAt(written + data, delimiter, q)
    requires forall q | 0 <= q < n :: !OccursAt(data, delimiter, q)
    ensures forall q | 0 <= q < |written| + n :: !OccursAt(written + data, delimiter, q)
  {
    forall q | |written| <= q < |written| + n
      ensures !OccursAt(written + data, delimiter, q)
    {
      Shift(written, data, delimiter, q - |written|);
    }
  }

  /** The first delimiter of the buffer is the first one of what was received. */
  lemma FoundAt(written: string, data: string, delimiter: string, i: nat)
    requires forall q | 0 <= q < |written| :: !OccursAt(written + data, delimiter, q)
    requires IsFirst(data, delimiter, i)
    ensures IsFirst(written + data, delimiter, |written| + i)
    ensures (written + data)[..|written| + i] == written + data[..i]
    ensures (written + data)[|written| + i + |delimiter|..] == data[i + |delimiter|..]
  {
    NotBefore(written, data, delimiter, i);
    Shift(written, data, delimiter, i);
  }

  /** A position that leaves room for the whole delimiter is not affected by more data, except by the byte
      that must follow it: that is why the last n bytes stay in the buffer. */
  lemma Extend(s: string, more: string, delimiter: string, n: nat)
    requires Nowhere(s, delimiter) && (n == 0 || n + |delimiter| <= |s|)
    ensures forall q | 0 <= q < n :: !OccursAt(s + more, delimiter, q)
  {
    forall q | 0 <= q < n
      ensures !OccursAt(s + more, delimiter, q)
    {
      assert (s + more)[q..q + |delimiter|] == s[q..q + |delimiter|];
      assert !OccursAt(s, delimiter, q);
    }
  }

  // ------------------------------------------------------------ independence of the pieces

  /** The first delimiter in what has been received is the first one of the whole body. */
  lemma FirstInPrefix(s: string, whole: string, delimiter: string, p: int)
    requires s <= whole && IsFirst(s, delimiter, p)
    ensures IsFirst(whole, delimiter, p)
  {
    forall q | 0 <= q <= p
      ensures OccursAt(whole, delimiter, q) <==> OccursAt(s, delimiter, q)
    {
      assert whole[q..q + |delimiter|] == s[q..q + |delimiter|];
    }
  }

  /** What a run has received, written and buffered; one that found no boundary has received the whole body. */
  datatype Outcome = Outcome(received: string, eof: bool, p: int, file: string, buffered: string)

  ghost predicate IsOutcome(whole: string, delimiter: string, o: Outcome) {
    && o.received <= whole
    && if o.eof then
         && IsFirst(o.received, delimiter, o.p) && o.file == o.received[..o.p]
         && o.buffered == o.received[o.p + |delimiter|..]
       else
         o.received == whole && Nowhere(whole, delimiter) && whole == o.file + o.buffered
  }

  /** Two ways of reading the same body: both find the boundary or neither does, they write the same file, and
      what they leave behind (the buffer and the unread bytes) is the same. */
  lemma ScanIsChunkIndependent(whole: string, delimiter: string, o1: Outcome, o2: Outcome)
    requires IsOutcome(whole, delimiter, o1) && IsOutcome(whole, delimiter, o2)
    ensures o1.eof == o2.eof
    ensures o1.eof ==> o1.p == o2.p && o1.file == o2.file == whole[..o1.p]
    ensures o1.eof ==> o1.buffered + whole[|o1.received|..] == o2.buffered + whole[|o2.received|..]
    ensures !o1.eof ==> o1.file + o1.buffered == o2.file + o2.buffered
  {
    if o1.eof {
      FirstInPrefix(o1.received, whole, delimiter, o1.p);
    }
    if o2.eof {
      FirstInPrefix(o2.received, whole, delimiter, o2.p);
    }
    if o1.eof && o2.eof {
      assert o1.p == o2.p;
      Leftover(whole, o1.received, o1.p + |delimiter|);
      Leftover(whole, o2.received, o2.p + |delimiter|);
    }
  }

  lemma Leftover(whole: string, received: string, from: nat)
    requires received <= whole && from <= |received|
    ensures received[from..] + whole[|received|..] == whole[from..]
  {
  }

  /** Two uploads that start with the same buffered bytes and read the same body, in whatever pieces. */
  method ReadTwice(u1: Upload, c1: Connection, u2: Upload, c2: Connection) returns (eof1: bool, eof2: bool)
    requires u1.Valid() && u2.Valid() && u1.file == u2.file == "" && u1.boundary == u2.boundary
    requires u1.Buffered() == u2.Buffered() && c1.body == c2.body && c1.pos == c2.pos <= |c1.body|
    requires !c1.failed && !c2.failed && u1 != u2 && u1.buf != u2.buf && c1 != c2
    modifies u1, u1.buf, c1, u2, u2.buf, c2
    ensures u1.Valid() && u2.Valid() && c1.pos <= |c1.body| && c2.pos <= |c2.body|
    ensures c1.failed == c1.FailedSince(old(c1.asked)) && c2.failed == c2.FailedSince(old(c2.asked))
    ensures (eof1 || !c1.failed) && (eof2 || !c2.failed) ==>
              && eof1 == eof2
              && if eof1 then u1.file == u2.file && u1.Buffered() + c1.Unread() == u2.Buffered() + c2.Unread()
                 else u1.file + u1.Buffered() == u2.file + u2.Buffered()
  {
    ghost var whole := u1.Buffered() + c1.Unread();
    ghost var o1, o2;
    eof1, o1 := u1.ReadAll(c1, whole);
    eof2, o2 := u2.ReadAll(c2, whole);
    if (eof1 || !c1.failed) && (eof2 || !c2.failed) {
      ScanIsChunkIndependent(whole, u1.Delimiter(), o1, o2);
    }
  }

  /** What has been received of a body, and what has not. */
  lemma Received(rest: string, body: string, from: nat, pos: nat)
    requires from <= pos <= |body|
    ensures var whole, r := rest + body[from..], rest + body[from..pos];
            r <= whole && whole[|r|..] == body[pos..] && (pos == |body| ==> r == whole)
  {
    assert body[from..] == body[from..pos] + body[pos..];
  }
}
