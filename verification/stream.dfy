/**
  The primitive reader: forward-only, big-endian reads of unsigned
  1-, 2- and 4-byte quantities from a byte string.

  A decoder position is a `Cursor`: the offset of the next unread byte
  plus the diagnostics reported so far (the model of the error printer).
  Running out of bytes is an explicit `Truncated` failure.
 */
module Stream {

  /** What the decoder reports and then carries on past. */
  datatype Diagnostic =
    | BadNameIndex(index: nat)        // attribute name index is not a UTF-8 constant
    | CatchTypeNotClass(index: nat)   // catch_type index is not a class/string constant

  datatype Cursor = Cursor(pos: nat, log: seq<Diagnostic>)

  /** The outcome of a read: a value and the cursor after it, or truncation. */
  datatype Parsed<+T> = Parsed(value: T, next: Cursor) | Truncated(at: nat)

  /** One octet of the class file. */
  newtype byte = b: int | 0 <= b < 0x100

  const U2_LIMIT: nat := 0x1_0000
  const U4_LIMIT: nat := 0x1_0000_0000
  const INT32_MIN: int := -0x8000_0000
  const INT32_LIMIT: int := 0x8000_0000

  /** `e` occurs in `s` starting at offset `pos`. */
  predicate At(s: seq<byte>, pos: nat, e: seq<byte>) {
    pos + |e| <= |s| && s[pos..pos + |e|] == e
  }

  /** Reference meaning of a byte string read most-significant byte first. */
  function BigEndian(b: seq<byte>): nat
    decreases |b|
  {
    if |b| == 0 then 0 else BigEndian(b[..|b| - 1]) * 256 + b[|b| - 1] as nat
  }

  /** The unsigned 16-bit value stored at offset `p`, most significant byte first. */
  ghost function U2At(s: seq<byte>, p: nat): (v: nat)
    requires p + 2 <= |s|
    ensures v < U2_LIMIT
  {
    s[p] as nat * 0x100 + s[p + 1] as nat
  }

  /** The unsigned 32-bit value stored at offset `p`, most significant half first. */
  ghost function U4At(s: seq<byte>, p: nat): (v: nat)
    requires p + 4 <= |s|
    ensures v < U4_LIMIT
  {
    U2At(s, p) * U2_LIMIT + U2At(s, p + 2)
  }

  function ReadU1(s: seq<byte>, c: Cursor): (r: Parsed<nat>)
    ensures r.Parsed? <==> c.pos + 1 <= |s|
    ensures r.Parsed? ==> r.next == Cursor(c.pos + 1, c.log)
    ensures r.Parsed? ==> r.value == BigEndian(s[c.pos..c.pos + 1]) && r.value < 0x100
  {
    if c.pos + 1 <= |s| then
      var b := s[c.pos..c.pos + 1];
      assert b[..0] == [];
      Parsed(s[c.pos] as nat, Cursor(c.pos + 1, c.log))
    else
      Truncated(c.pos)
  }

  /** Two bytes read most-significant first. */
  lemma BigEndian2(b: seq<byte>)
    requires |b| == 2
    ensures BigEndian(b) == b[0] as nat * 0x100 + b[1] as nat
  {
    assert b[..1][..0] == [];
    assert BigEndian(b[..1]) == b[0] as nat;
  }

  /** Appending one byte shifts the value by eight bits. */
  lemma BigEndianSnoc(a: seq<byte>, x: byte)
    ensures BigEndian(a + [x]) == BigEndian(a) * 0x100 + x as nat
  {
    assert (a + [x])[..|a|] == a;
  }

  /** Appending two bytes shifts the value by sixteen bits. */
  lemma BigEndianAppend2(a: seq<byte>, b: seq<byte>)
    requires |b| == 2
    ensures BigEndian(a + b) == BigEndian(a) * U2_LIMIT + BigEndian(b)
  {
    assert a + b == (a + [b[0]]) + [b[1]];
    BigEndianSnoc(a + [b[0]], b[1]);
    BigEndianSnoc(a, b[0]);
    BigEndian2(b);
  }

  /** `U2At` is the big-endian reading of the two bytes at `p`. */
  lemma U2AtIsBigEndian(s: seq<byte>, p: nat)
    requires p + 2 <= |s|
    ensures U2At(s, p) == BigEndian(s[p..p + 2])
  {
    BigEndian2(s[p..p + 2]);
  }

  /** `U4At` is the big-endian reading of the four bytes at `p`. */
  lemma U4AtIsBigEndian(s: seq<byte>, p: nat)
    requires p + 4 <= |s|
    ensures U4At(s, p) == BigEndian(s[p..p + 4])
  {
    assert s[p..p + 4] == s[p..p + 2] + s[p + 2..p + 4];
    BigEndianAppend2(s[p..p + 2], s[p + 2..p + 4]);
    BigEndian2(s[p..p + 2]);
    BigEndian2(s[p + 2..p + 4]);
  }

  function ReadU2(s: seq<byte>, c: Cursor): (r: Parsed<nat>)
    ensures r.Parsed? <==> c.pos + 2 <= |s|
    ensures r.Parsed? ==> r.next == Cursor(c.pos + 2, c.log)
    ensures r.Parsed? ==> r.value == U2At(s, c.pos) && r.value < U2_LIMIT
  {
    if c.pos + 2 <= |s| then
      Parsed(s[c.pos] as nat * 0x100 + s[c.pos + 1] as nat, Cursor(c.pos + 2, c.log))
    else
      Truncated(c.pos)
  }

  function ReadU4(s: seq<byte>, c: Cursor): (r: Parsed<nat>)
    ensures r.Parsed? <==> c.pos + 4 <= |s|
    ensures r.Parsed? ==> r.next == Cursor(c.pos + 4, c.log)
    ensures r.Parsed? ==> r.value == U4At(s, c.pos) && r.value < U4_LIMIT
  {
    if c.pos + 4 <= |s| then
      var hi := ReadU2(s, c);
      var lo := ReadU2(s, hi.next);
      Parsed(hi.value * U2_LIMIT + lo.value, Cursor(c.pos + 4, c.log))
    else
      Truncated(c.pos)
  }

  /** `n` raw bytes copied in stream order (the byte-by-byte read loops). */
  function ReadBytes(s: seq<byte>, c: Cursor, n: nat): (r: Parsed<seq<byte>>)
    ensures r.Parsed? <==> c.pos + n <= |s|
    ensures r.Parsed? ==> r.next == Cursor(c.pos + n, c.log) && |r.value| == n && At(s, c.pos, r.value)
  {
    if c.pos + n <= |s| then Parsed(s[c.pos..c.pos + n], Cursor(c.pos + n, c.log)) else Truncated(|s|)
  }

  /** `n` successive one-byte reads, as the Java `for` loops over `readU1` perform them. */
  function ReadU1s(s: seq<byte>, c: Cursor, n: nat): (r: Parsed<seq<byte>>)
    ensures r.Parsed? ==> r.next == Cursor(c.pos + n, c.log) && |r.value| == n
    decreases n
  {
    if n == 0 then Parsed([], c) else
    var first := ReadU1(s, c);
    if first.Truncated? then Truncated(first.at) else
    var rest := ReadU1s(s, first.next, n - 1);
    if rest.Truncated? then Truncated(rest.at) else
    Parsed([first.value as byte] + rest.value, rest.next)
  }

  /**
    The loop of one-byte reads and the block read agree: from any position
    inside the input both succeed exactly when `n` bytes remain, and they
    return the same bytes, cursor and truncation point.
   */
  lemma {:induction false} ReadU1sIsReadBytes(s: seq<byte>, c: Cursor, n: nat)
    requires c.pos <= |s|
    ensures ReadU1s(s, c, n) == ReadBytes(s, c, n)
    decreases n
  {
    if n > 0 && c.pos + 1 <= |s| {
      var next := Cursor(c.pos + 1, c.log);
      assert ReadU1(s, c) == Parsed(s[c.pos] as nat, next);
      ReadU1sIsReadBytes(s, next, n - 1);
      if c.pos + n <= |s| {
        assert [s[c.pos]] + s[c.pos + 1..c.pos + n] == s[c.pos..c.pos + n];
      }
    }
  }

  /** Big-endian encoding of a 16-bit value: the inverse of `ReadU2`. */
  function U2Bytes(v: nat): (b: seq<byte>)
    requires v < U2_LIMIT
    ensures |b| == 2 && U2At(b, 0) == v
  {
    [(v / 0x100) as byte, (v % 0x100) as byte]
  }

  /** Big-endian encoding of a 32-bit value: the inverse of `ReadU4`. */
  function U4Bytes(v: nat): (b: seq<byte>)
    requires v < U4_LIMIT
    ensures |b| == 4 && U4At(b, 0) == v
  {
    var hi := U2Bytes(v / U2_LIMIT);
    var lo := U2Bytes(v % U2_LIMIT);
    assert (hi + lo)[2..] == lo;
    hi + lo
  }

  /** The encoding is the big-endian representation of the value. */
  lemma U2BytesIsBigEndian(v: nat)
    requires v < U2_LIMIT
    ensures BigEndian(U2Bytes(v)) == v
  {
    U2AtIsBigEndian(U2Bytes(v), 0);
    assert U2Bytes(v)[0..2] == U2Bytes(v);
  }

  /** The encoding is the big-endian representation of the value. */
  lemma U4BytesIsBigEndian(v: nat)
    requires v < U4_LIMIT
    ensures BigEndian(U4Bytes(v)) == v
  {
    U4AtIsBigEndian(U4Bytes(v), 0);
    assert U4Bytes(v)[0..4] == U4Bytes(v);
  }

  /** Two bytes are determined by their 16-bit value. */
  lemma U2BytesOfValue(b: seq<byte>)
    requires |b| == 2
    ensures U2Bytes(U2At(b, 0)) == b
  {
  }

  /** Four bytes are determined by their 32-bit value. */
  lemma U4BytesOfValue(b: seq<byte>)
    requires |b| == 4
    ensures U4Bytes(U4At(b, 0)) == b
  {
    var hi, lo := b[..2], b[2..];
    assert U2At(b, 0) == U2At(hi, 0) && U2At(b, 2) == U2At(lo, 0);
    HalvesOf(U2At(hi, 0), U2At(lo, 0));
    U2BytesOfValue(hi);
    U2BytesOfValue(lo);
    assert b == hi + lo;
  }

  /** A 32-bit value splits back into the halves it was built from. */
  lemma HalvesOf(hi: nat, lo: nat)
    requires hi < U2_LIMIT && lo < U2_LIMIT
    ensures (hi * U2_LIMIT + lo) / U2_LIMIT == hi && (hi * U2_LIMIT + lo) % U2_LIMIT == lo
  {
  }

  /** Reading back an encoded 16-bit value yields it. */
  lemma ReadU2Encoded(s: seq<byte>, c: Cursor, v: nat)
    requires v < U2_LIMIT && At(s, c.pos, U2Bytes(v))
    ensures ReadU2(s, c) == Parsed(v, Cursor(c.pos + 2, c.log))
  {
    assert s[c.pos] == U2Bytes(v)[0] && s[c.pos + 1] == U2Bytes(v)[1];
  }

  /** Reading back an encoded 32-bit value yields it. */
  lemma ReadU4Encoded(s: seq<byte>, c: Cursor, v: nat)
    requires v < U4_LIMIT && At(s, c.pos, U4Bytes(v))
    ensures ReadU4(s, c) == Parsed(v, Cursor(c.pos + 4, c.log))
  {
    var b := U4Bytes(v);
    assert s[c.pos] == b[0] && s[c.pos + 1] == b[1] && s[c.pos + 2] == b[2] && s[c.pos + 3] == b[3];
  }

  /** Re-encoding a 16-bit read reproduces the bytes it came from. */
  lemma U2BytesOfRead(s: seq<byte>, c: Cursor)
    requires c.pos + 2 <= |s|
    ensures At(s, c.pos, U2Bytes(ReadU2(s, c).value))
  {
    U2BytesOfValue(s[c.pos..c.pos + 2]);
  }

  /** Re-encoding a 32-bit read reproduces the bytes it came from. */
  lemma U4BytesOfRead(s: seq<byte>, c: Cursor)
    requires c.pos + 4 <= |s|
    ensures At(s, c.pos, U4Bytes(ReadU4(s, c).value))
  {
    U4BytesOfValue(s[c.pos..c.pos + 4]);
  }

  predicate IsInt32(x: int) {
    INT32_MIN <= x < INT32_LIMIT
  }

  /** The Java `int` that holds an unsigned 32-bit read: two's complement. */
  function ToInt32(u: nat): (x: int)
    requires u < U4_LIMIT
    ensures IsInt32(x) && (x - u) % U4_LIMIT == 0
    ensures x >= 0 <==> u < INT32_LIMIT
  {
    if u < INT32_LIMIT then u else u - U4_LIMIT
  }

  /** The four bytes a Java `int` occupies, as an unsigned value. */
  function FromInt32(x: int): (u: nat)
    requires IsInt32(x)
    ensures u < U4_LIMIT && ToInt32(u) == x
  {
    if x >= 0 then x else x + U4_LIMIT
  }

  /** A concatenation found at `pos` splits into its two parts, and back. */
  lemma AtConcat(s: seq<byte>, pos: nat, a: seq<byte>, b: seq<byte>)
    ensures At(s, pos, a + b) <==> At(s, pos, a) && At(s, pos + |a|, b)
  {
    if At(s, pos, a) && At(s, pos + |a|, b) {
      assert s[pos..pos + |a| + |b|] == s[pos..pos + |a|] + s[pos + |a|..pos + |a| + |b|];
    }
    if At(s, pos, a + b) {
      assert s[pos..pos + |a|] == s[pos..pos + |a| + |b|][..|a|];
      assert s[pos + |a|..pos + |a| + |b|] == s[pos..pos + |a| + |b|][|a|..];
    }
  }
}
