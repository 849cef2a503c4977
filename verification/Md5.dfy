/**
 The incremental MD5 of mongoose on a little-endian host, with the block transform left abstract.
 */
module Md5 {
  import opened Wrappers

  const TWO32 := 0x1_0000_0000
  const TWO64 := 0x1_0000_0000_0000_0000

  type byte = x: int | 0 <= x < 256
  type uint32 = x: int | 0 <= x < 0x1_0000_0000

  /** The chaining value: the four words of MD5_CTX.buf. */
  datatype Words = Words(a: uint32, b: uint32, c: uint32, d: uint32)

  const INITIAL := Words(0x67452301, 0xefcdab89, 0x98badcfe, 0x10325476)

  /** MD5Transform: from a chaining value and a block of 64 bytes to the next chaining value. */
  type Transform = (Words, seq<byte>) -> Words

  // ------------------------------------------------------------ the specification (RFC 1321, section 3)

  function LittleEndian(x: uint32): (s: seq<byte>)
    ensures |s| == 4
  {
    [x % 256, x / 256 % 256, x / 65536 % 256, x / 16777216]
  }

  /** Appends a 1 bit and as many 0 bits as needed to leave room for the length (section 3.1). */
  function Zeros(n: nat): (k: nat)
    ensures k < 64 && (n + 1 + k) % 64 == 56
  {
    (55 - n) % 64
  }

  /** The length in bits modulo 2^64, low-order word first (section 3.2). */
  function Length(n: nat): (s: seq<byte>)
    ensures |s| == 8
  {
    LittleEndian(8 * n % TWO32) + LittleEndian(8 * n / TWO32 % TWO32)
  }

  function ZeroBytes(k: nat): (s: seq<byte>)
    ensures |s| == k
  {
    seq(k, _ => 0)
  }

  function Pad(m: seq<byte>): (p: seq<byte>)
    ensures |p| % 64 == 0
  {
    WholePadding(|m|);
    m + [0x80] + ZeroBytes(Zeros(|m|)) + Length(|m|)
  }

  lemma WholePadding(n: nat)
    ensures (n + 1 + Zeros(n) + 8) % 64 == 0
  {
    var k := (n + 1 + Zeros(n)) / 64;
    assert n + 1 + Zeros(n) + 8 == 64 * (k + 1);
  }

  /** The transform folded over the blocks of the data (section 3.4). */
  function Fold(f: Transform, w: Words, data: seq<byte>): Words
    requires |data| % 64 == 0
    decreases |data|
  {
    if data == [] then w else Fold(f, f(w, data[..64]), data[64..])
  }

  function Bytes(w: Words): (s: seq<byte>)
    ensures |s| == 16
  {
    LittleEndian(w.a) + LittleEndian(w.b) + LittleEndian(w.c) + LittleEndian(w.d)
  }

  function Digest(f: Transform, m: seq<byte>): seq<byte> {
    Bytes(Fold(f, INITIAL, Pad(m)))
  }

  lemma {:induction false} FoldAppend(f: Transform, w: Words, data: seq<byte>, block: seq<byte>)
    requires |data| % 64 == 0 && |block| == 64
    ensures |data + block| % 64 == 0
    ensures Fold(f, w, data + block) == f(Fold(f, w, data), block)
    decreases |data|
  {
    if data == [] {
      assert data + block == block;
      assert block[..64] == block && block[64..] == [];
    } else {
      assert (data + block)[..64] == data[..64];
      assert (data + block)[64..] == data[64..] + block;
      FoldAppend(f, f(w, data[..64]), data[64..], block);
    }
  }

  // ------------------------------------------------------------ what RFC 1321 says of the bytes

  /** The number that bytes stand for, low-order byte first. */
  function Value(s: seq<byte>): nat {
    if s == [] then 0 else s[0] + 256 * Value(s[1..])
  }

  lemma ValueBehind(x: byte, t: seq<byte>)
    ensures Value([x] + t) == x + 256 * Value(t)
  {
    assert ([x] + t)[1..] == t;
  }

  lemma ValueAppend(s: seq<byte>, t: seq<byte>)
    requires |s| == 4
    ensures Value(s + t) == s[0] + 256 * s[1] + 65536 * s[2] + 16777216 * s[3] + TWO32 * Value(t)
  {
    assert s + t == [s[0]] + ([s[1]] + ([s[2]] + ([s[3]] + t)));
    ValueBehind(s[0], [s[1]] + ([s[2]] + ([s[3]] + t)));
    ValueBehind(s[1], [s[2]] + ([s[3]] + t));
    ValueBehind(s[2], [s[3]] + t);
    ValueBehind(s[3], t);
  }

  /** A word is put in front low-order byte first. */
  lemma WordInFront(x: uint32, t: seq<byte>)
    ensures Value(LittleEndian(x) + t) == x + TWO32 * Value(t)
  {
    ValueAppend(LittleEndian(x), t);
    Recombine(x);
  }

  /** The padding of section 3.1 and the length of section 3.2: a byte 0x80, zeros up to the first place eight bytes
      in front of the end of a block, and the number of bits modulo 2^64. */
  lemma PadIs(m: seq<byte>)
    ensures var p := Pad(m);
      && |p| % 64 == 0 && |m| + 9 <= |p| < |m| + 73
      && p[..|m|] == m && p[|m|] == 0x80 && (forall i | |m| < i < |p| - 8 :: p[i] == 0)
      && Value(p[|p| - 8..]) == 8 * |m| % TWO64
  {
    var p, bits := Pad(m), 8 * |m|;
    var low, high := bits % TWO32, bits / TWO32 % TWO32;
    assert p[|p| - 8..] == LittleEndian(low) + (LittleEndian(high) + []);
    WordInFront(low, LittleEndian(high) + []);
    WordInFront(high, []);
    LowAndHigh(bits);
  }

  lemma LowAndHigh(x: nat)
    ensures x % TWO32 + TWO32 * (x / TWO32 % TWO32) == x % TWO64
  {
    var q := x / TWO32;
    assert x == TWO32 * q + x % TWO32 && q == TWO32 * (q / TWO32) + q % TWO32;
    assert x == TWO64 * (q / TWO32) + (x % TWO32 + TWO32 * (q % TWO32));
  }

  /** The words of section 3.3, and the order in which section 3.5 puts out the words of a digest. */
  lemma InitialBytes()
    ensures Bytes(INITIAL) == [0x01, 0x23, 0x45, 0x67, 0x89, 0xab, 0xcd, 0xef,
                               0xfe, 0xdc, 0xba, 0x98, 0x76, 0x54, 0x32, 0x10]
  {
  }

  lemma BytesAre(w: Words)
    ensures Value(Bytes(w)) == w.a + TWO32 * (w.b + TWO32 * (w.c + TWO32 * w.d))
  {
    var a, b, c, d := LittleEndian(w.a), LittleEndian(w.b), LittleEndian(w.c), LittleEndian(w.d);
    assert Bytes(w) == a + (b + (c + (d + [])));
    WordInFront(w.a, b + (c + (d + [])));
    WordInFront(w.b, c + (d + []));
    WordInFront(w.c, d + []);
    WordInFront(w.d, []);
  }

  // ------------------------------------------------------------ lengths

  lemma Split(q: int, r: int)
    requires 0 <= r < TWO32
    ensures (q * TWO32 + r) / TWO32 == q && (q * TWO32 + r) % TWO32 == r
  {
  }

  lemma ModAdd(q: int, x: int)
    ensures (q % TWO32 + x) % TWO32 == (q + x) % TWO32
  {
    var k, r := (q % TWO32 + x) / TWO32, (q % TWO32 + x) % TWO32;
    assert q + x == (q / TWO32 + k) * TWO32 + r;
    Split(q / TWO32 + k, r);
  }

  function LowWord(low: uint32, len: uint32): uint32 {
    (low + 8 * len % TWO32) % TWO32
  }

  function HighWord(low: uint32, low': uint32, high: uint32, len: uint32): uint32 {
    ((if low' < low then (high + 1) % TWO32 else high) + len / 0x2000_0000) % TWO32
  }

  /** How MD5Update counts: the low word with a carry, and the bits that the shift loses. */
  lemma CountBits(n: nat, len: uint32, low: uint32, high: uint32)
    requires low == 8 * n % TWO32 && high == 8 * n / TWO32 % TWO32
    ensures var low' := LowWord(low, len);
      low' == 8 * (n + len) % TWO32 && HighWord(low, low', high, len) == 8 * (n + len) / TWO32 % TWO32
  {
    var q := 8 * n / TWO32;
    var hi, lo := len / 0x2000_0000, len % 0x2000_0000;
    Split(hi, 8 * lo);
    assert 8 * len == hi * TWO32 + 8 * lo;
    var sum := low + 8 * lo;
    var carry := if sum >= TWO32 then 1 else 0;
    Split(carry, sum - carry * TWO32);
    assert 8 * (n + len) == (q + hi + carry) * TWO32 + (sum - carry * TWO32);
    Split(q + hi + carry, sum - carry * TWO32);
    ModAdd(q, carry);
    ModAdd(q + carry, hi);
  }

  lemma Offset(n: nat)
    ensures 8 * n % TWO32 / 8 % 64 == n % 64
  {
    var q := 8 * n / TWO32;
    assert 8 * n == q * TWO32 + 8 * n % TWO32;
    assert 8 * n % TWO32 / 8 == n - q * 0x2000_0000;
    SameRest(n, q * 0x80_0000);
  }

  lemma SameRest(n: int, k: int)
    ensures (n - 64 * k) % 64 == n % 64
  {
    var d, x := n / 64, n % 64;
    assert n - 64 * k == 64 * (d - k) + x;
  }

  // ------------------------------------------------------------ the context

  /** memcpy into the block buffer. */
  method CopyInto(a: array<byte>, at: nat, src: seq<byte>)
    requires at + |src| <= a.Length
    modifies a
    ensures a[..] == old(a[..])[..at] + src + old(a[..])[at + |src|..]
  {
    for i := 0 to |src|
      invariant a[..at] == old(a[..at]) && a[at..at + i] == src[..i] && a[at + i..] == old(a[at + i..])
    {
      a[at + i] := src[i];
      assert a[at..at + i + 1] == a[at..at + i] + [src[i]];
      assert src[..i + 1] == src[..i] + [src[i]];
    }
    assert a[..] == a[..at] + a[at..at + |src|] + a[at + |src|..];
    assert src[..|src|] == src;
  }

  class Context {
    var buf: Words
    var bits0: uint32
    var bits1: uint32
    const block: array<byte>
    const transform: Transform

    /** The context has absorbed the message m: its whole blocks are folded, the rest is buffered, and its length
        is counted. */
    ghost predicate Absorbed(m: seq<byte>)
      reads this, block
    {
      var whole := |m| / 64 * 64;
      && block.Length == 64
      && buf == Fold(transform, INITIAL, m[..whole])
      && block[..|m| - whole] == m[whole..]
      && bits0 == 8 * |m| % TWO32 && bits1 == 8 * |m| / TWO32 % TWO32
    }

    /** MD5Init. */
    constructor (transform: Transform)
      ensures Absorbed([]) && this.transform == transform && fresh(block)
    {
      this.transform := transform;
      buf := INITIAL;
      bits0, bits1 := 0, 0;
      block := new byte[64](_ => 0);
    }

    /** MD5Update. */
    method Update(data: seq<byte>, ghost m: seq<byte>)
      requires Absorbed(m) && |data| < TWO32
      modifies this, block
      ensures Absorbed(m + data)
    {
      Offset(|m|);
      var t := bits0 / 8 % 64;
      Count(|data|, |m|);
      if t == 0 {
        assert m[..|m| / 64 * 64] == m && m + data[..0] == m;
        Blocks(data, 0, m);
      } else if |data| < 64 - t {
        CopyInto(block, t, data);
        Buffered(m, data);
      } else {
        FillBlock(t, data, m);
        Blocks(data, 64 - t, m);
      }
    }

    /** The first bytes of the data complete the buffered block. */
    method FillBlock(t: nat, data: seq<byte>, ghost m: seq<byte>)
      requires t == |m| % 64 && 64 - t <= |data|
      requires block.Length == 64 && buf == Fold(transform, INITIAL, m[..|m| / 64 * 64])
      requires block[..t] == m[|m| / 64 * 64..]
      modifies this`buf, block
      ensures |m + data[..64 - t]| % 64 == 0 && buf == Fold(transform, INITIAL, m + data[..64 - t])
    {
      ghost var whole := m[..|m| / 64 * 64];
      CopyInto(block, t, data[..64 - t]);
      FoldAppend(transform, INITIAL, whole, block[..]);
      assert whole + block[..] == m + data[..64 - t];
      buf := transform(buf, block[..]);
    }

    /** The two words of the bit count. */
    method Count(len: uint32, ghost n: nat)
      requires bits0 == 8 * n % TWO32 && bits1 == 8 * n / TWO32 % TWO32
      modifies this`bits0, this`bits1
      ensures bits0 == 8 * (n + len) % TWO32 && bits1 == 8 * (n + len) / TWO32 % TWO32
    {
      CountBits(n, len, bits0, bits1);
      var t := bits0;
      bits0 := LowWord(t, len);
      if bits0 < t {
        bits1 := (bits1 + 1) % TWO32;
      }
      bits1 := (bits1 + len / 0x2000_0000) % TWO32;
    }

    /** The loop over the whole blocks of the data from an offset on, and the copy of the rest. */
    method Blocks(data: seq<byte>, from: nat, ghost m: seq<byte>)
      requires block.Length == 64 && from <= |data| && (|m| + from) % 64 == 0
      requires buf == Fold(transform, INITIAL, m + data[..from])
      requires bits0 == 8 * |m + data| % TWO32 && bits1 == 8 * |m + data| / TWO32 % TWO32
      modifies this`buf, block
      ensures Absorbed(m + data)
    {
      var pos := from;
      while |data| - pos >= 64
        invariant pos <= |data| && (|m| + pos) % 64 == 0
        invariant buf == Fold(transform, INITIAL, m + data[..pos])
      {
        TransformBlock(data[pos..pos + 64], m + data[..pos]);
        assert m + data[..pos] + data[pos..pos + 64] == m + data[..pos + 64];
        pos := pos + 64;
      }
      CopyInto(block, 0, data[pos..]);
      WholeBlocks(m, data, pos);
      assert block[..|data| - pos] == data[pos..];
    }

    method TransformBlock(chunk: seq<byte>, ghost done: seq<byte>)
      requires block.Length == 64 == |chunk| && |done| % 64 == 0 && buf == Fold(transform, INITIAL, done)
      modifies this`buf, block
      ensures |done + chunk| % 64 == 0 && buf == Fold(transform, INITIAL, done + chunk)
    {
      CopyInto(block, 0, chunk);
      assert block[..] == chunk;
      FoldAppend(transform, INITIAL, done, chunk);
      buf := transform(buf, block[..]);
    }

    lemma WholeBlocks(m: seq<byte>, data: seq<byte>, pos: nat)
      requires pos <= |data| && (|m| + pos) % 64 == 0 && |data| - pos < 64
      ensures |m + data| / 64 * 64 == |m| + pos
      ensures (m + data)[..|m| + pos] == m + data[..pos] && (m + data)[|m| + pos..] == data[pos..]
    {
    }

    lemma Buffered(m: seq<byte>, data: seq<byte>)
      requires |m| % 64 + |data| < 64
      ensures var whole := |m| / 64 * 64;
        && |m + data| / 64 * 64 == whole
        && (m + data)[..whole] == m[..whole] && (m + data)[whole..] == m[whole..] + data
    {
    }

    /** MD5Final. The context is cleared. */
    method Final(ghost m: seq<byte>) returns (digest: seq<byte>)
      requires Absorbed(m)
      modifies this, block
      ensures digest == Digest(transform, m)
      ensures buf == Words(0, 0, 0, 0) && bits0 == 0 && bits1 == 0 && block[..] == ZeroBytes(64)
    {
      Offset(|m|);
      var count := bits0 / 8 % 64;
      ghost var done := PadBlock(count, m);
      CopyInto(block, 56, LittleEndian(bits0) + LittleEndian(bits1));
      LastBlock(m, done, block[..]);
      buf := transform(buf, block[..]);
      digest := Bytes(buf);
      Clear();
    }

    /** The 1 bit and the zeros, up to the place of the length. */
    method PadBlock(count: nat, ghost m: seq<byte>) returns (ghost done: seq<byte>)
      requires count == |m| % 64 && block.Length == 64
      requires buf == Fold(transform, INITIAL, m[..|m| / 64 * 64]) && block[..count] == m[|m| / 64 * 64..]
      modifies this`buf, block
      ensures |done| % 64 == 0 && buf == Fold(transform, INITIAL, done)
      ensures done + block[..56] == m + [0x80] + ZeroBytes(Zeros(|m|))
    {
      done := m[..|m| / 64 * 64];
      ghost var rest := m[|m| / 64 * 64..];
      block[count] := 0x80;
      assert block[..count + 1] == rest + [0x80];
      var room := 63 - count;
      if room < 8 {
        CopyInto(block, count + 1, ZeroBytes(room));
        assert block[..] == rest + [0x80] + ZeroBytes(room);
        FoldAppend(transform, INITIAL, done, block[..]);
        done := done + block[..];
        buf := transform(buf, block[..]);
        CopyInto(block, 0, ZeroBytes(56));
        assert block[..56] == ZeroBytes(56);
        PadsInTwo(m, room);
      } else {
        CopyInto(block, count + 1, ZeroBytes(room - 8));
        assert block[..56] == rest + [0x80] + ZeroBytes(room - 8);
        PadsInOne(m, room);
      }
    }

    lemma PadsInTwo(m: seq<byte>, room: nat)
      requires room == 63 - |m| % 64 < 8
      ensures var whole := |m| / 64 * 64;
              m[..whole] + (m[whole..] + [0x80] + ZeroBytes(room)) + ZeroBytes(56) == m + [0x80] + ZeroBytes(Zeros(|m|))
    {
      assert ZeroBytes(Zeros(|m|)) == ZeroBytes(room) + ZeroBytes(56);
    }

    lemma PadsInOne(m: seq<byte>, room: nat)
      requires room == 63 - |m| % 64 >= 8
      ensures var whole := |m| / 64 * 64;
              m[..whole] + (m[whole..] + [0x80] + ZeroBytes(room - 8)) == m + [0x80] + ZeroBytes(Zeros(|m|))
    {
      assert Zeros(|m|) == room - 8;
    }

    lemma LastBlock(m: seq<byte>, done: seq<byte>, last: seq<byte>)
      requires |done| % 64 == 0 && |last| == 64
      requires done + last[..56] == m + [0x80] + ZeroBytes(Zeros(|m|)) && last[56..] == Length(|m|)
      ensures Fold(transform, INITIAL, Pad(m)) == transform(Fold(transform, INITIAL, done), last)
    {
      FoldAppend(transform, INITIAL, done, last);
      assert last == last[..56] + last[56..];
      assert done + last == (done + last[..56]) + last[56..];
    }

    method Clear()
      requires block.Length == 64
      modifies this, block
      ensures buf == Words(0, 0, 0, 0) && bits0 == 0 && bits1 == 0 && block[..] == ZeroBytes(64)
    {
      buf := Words(0, 0, 0, 0);
      bits0, bits1 := 0, 0;
      CopyInto(block, 0, ZeroBytes(64));
    }
  }

  // ------------------------------------------------------------ mg_md5

  function Concat(parts: seq<seq<byte>>): seq<byte> {
    if parts == [] then [] else parts[0] + Concat(parts[1..])
  }

  function HexDigit(d: int): char
    requires 0 <= d < 16
  {
    "0123456789abcdef"[d]
  }

  /** bin2str: two digits for each byte. */
  function Hex(s: seq<byte>): string {
    if s == [] then "" else [HexDigit(s[0] / 16), HexDigit(s[0] % 16)] + Hex(s[1..])
  }

  function DigitValue(c: char): int {
    if '0' <= c <= '9' then c as int - '0' as int else c as int - 'a' as int + 10
  }

  /** High digit first, in lower case. */
  lemma {:induction false} HexReads(s: seq<byte>, i: nat)
    requires i < |s|
    ensures |Hex(s)| == 2 * |s| && ReadsAs(Hex(s)[2 * i], Hex(s)[2 * i + 1], s[i])
    decreases |s|
  {
    var rest := Hex(s[1..]);
    assert Hex(s)[2..] == rest;
    OneByte(s[0]);
    if |s| > 1 {
      HexReads(s[1..], if i > 0 then i - 1 else 0);
      assert i > 0 ==> Hex(s)[2 * i] == rest[2 * (i - 1)] && Hex(s)[2 * i + 1] == rest[2 * (i - 1) + 1];
    }
  }

  predicate ReadsAs(h: char, l: char, b: byte) {
    0 <= DigitValue(h) < 16 && 0 <= DigitValue(l) < 16 && 16 * DigitValue(h) + DigitValue(l) == b
  }

  lemma OneByte(b: byte)
    ensures ReadsAs(HexDigit(b / 16), HexDigit(b % 16), b)
  {
    OneDigit(b / 16);
    OneDigit(b % 16);
  }

  lemma OneDigit(d: int)
    requires 0 <= d < 16
    ensures DigitValue(HexDigit(d)) == d
  {
    var digits := "0123456789abcdef";
    assert digits[0] == '0' && digits[1] == '1' && digits[2] == '2' && digits[3] == '3' && digits[4] == '4';
    assert digits[5] == '5' && digits[6] == '6' && digits[7] == '7' && digits[8] == '8' && digits[9] == '9';
    assert digits[10] == 'a' && digits[11] == 'b' && digits[12] == 'c' && digits[13] == 'd' && digits[14] == 'e';
    assert digits[15] == 'f';
  }

  method BinToStr(p: seq<byte>) returns (to: string)
    ensures to == Hex(p)
  {
    to := "";
    assert p[0..] == p;
    for i := 0 to |p|
      invariant to + Hex(p[i..]) == Hex(p)
    {
      assert p[i..][0] == p[i] && p[i..][1..] == p[i + 1..];
      to := to + [HexDigit(p[i] / 16), HexDigit(p[i] % 16)];
    }
    assert to + "" == to;
  }

  /** The loop over the arguments. */
  method UpdateAll(ctx: Context, parts: seq<seq<byte>>)
    requires forall i | 0 <= i < |parts| :: |parts[i]| < TWO32
    requires ctx.Absorbed([])
    modifies ctx, ctx.block
    ensures ctx.Absorbed(Concat(parts))
  {
    ghost var m: seq<byte> := [];
    assert parts[0..] == parts;
    for i := 0 to |parts|
      invariant ctx.Absorbed(m) && m + Concat(parts[i..]) == Concat(parts)
    {
      assert parts[i..][0] == parts[i] && parts[i..][1..] == parts[i + 1..];
      Associative(m, parts[i], Concat(parts[i + 1..]));
      ctx.Update(parts[i], m);
      m := m + parts[i];
    }
    assert m + [] == m;
  }

  /** mg_md5 hashes the concatenation of its arguments, however the text is divided among them. Each argument is
      a C string whose length is passed on as an unsigned int. */
  method MgMd5(transform: Transform, parts: seq<seq<byte>>) returns (s: string)
    requires forall i | 0 <= i < |parts| :: |parts[i]| < TWO32
    ensures s == Hex(Digest(transform, Concat(parts)))
  {
    var ctx := new Context(transform);
    UpdateAll(ctx, parts);
    var hash := ctx.Final(Concat(parts));
    s := BinToStr(hash);
  }

  // ------------------------------------------------------------ the padding is unambiguous

  lemma LittleEndianInjective(x: uint32, y: uint32)
    requires LittleEndian(x) == LittleEndian(y)
    ensures x == y
  {
    var s, t := LittleEndian(x), LittleEndian(y);
    assert s[0] == t[0] && s[1] == t[1] && s[2] == t[2] && s[3] == t[3];
    Recombine(x);
    Recombine(y);
  }

  lemma Recombine(x: uint32)
    ensures x == x % 256 + 256 * (x / 256 % 256) + 65536 * (x / 65536 % 256) + 16777216 * (x / 16777216)
  {
    var a := x / 256;
    var b := a / 256;
    assert x / 65536 == b && x / 16777216 == b / 256;
  }

  lemma LengthInjective(n: nat, k: nat)
    requires n < 0x2000_0000_0000_0000 && k < 0x2000_0000_0000_0000 && Length(n) == Length(k)
    ensures n == k
  {
    var x, y := Length(n), Length(k);
    assert x[..4] == LittleEndian(8 * n % TWO32) && x[4..] == LittleEndian(8 * n / TWO32 % TWO32);
    assert y[..4] == LittleEndian(8 * k % TWO32) && y[4..] == LittleEndian(8 * k / TWO32 % TWO32);
    LittleEndianInjective(8 * n % TWO32, 8 * k % TWO32);
    LittleEndianInjective(8 * n / TWO32 % TWO32, 8 * k / TWO32 % TWO32);
    Halves(8 * n);
    Halves(8 * k);
  }

  lemma Halves(x: nat)
    requires x < TWO64
    ensures x == x / TWO32 % TWO32 * TWO32 + x % TWO32
  {
    var q := x / TWO32;
    assert 0 <= q < TWO32;
    assert q % TWO32 == q;
  }

  /** Two messages of less than 2^61 bytes that pad to the same blocks are the same message. */
  lemma PadInjective(a: seq<byte>, b: seq<byte>)
    requires |a| < 0x2000_0000_0000_0000 && |b| < 0x2000_0000_0000_0000 && Pad(a) == Pad(b)
    ensures a == b
  {
    var p := Pad(a);
    assert p[|p| - 8..] == Length(|a|) == Length(|b|);
    LengthInjective(|a|, |b|);
    assert p[..|a|] == a && p[..|b|] == b;
  }
}
