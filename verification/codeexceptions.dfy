/**
  One entry of a Code attribute's exception table (section 4.7.3 of the
  Java Virtual Machine Specification, Java SE 8 edition): four u2 fields,
  the last an optional constant-pool index of the caught class.
 */
module CodeExceptions {
  import opened Optional
  import opened Stream
  import opened ConstPool

  /**
    `catchType` holds the pool index of the resolved class/string constant,
    or `None` (Java null) when the index is 0 or does not resolve.
   */
  datatype CodeException = CodeException(startPc: nat, endPc: nat, handlerPc: nat, catchType: Option<nat>)

  /** What a raw catch_type index resolves to: index 0 is never looked up. */
  ghost function ResolvedCatchType(pool: Pool, index: nat): Option<nat> {
    if index != 0 && IsClassOrStringAt(pool, index) then Some(index) else None
  }

  /** The entry stored at offset `p`, resolved against `pool`. */
  ghost function CodeExceptionAt(pool: Pool, s: seq<byte>, p: nat): CodeException
    requires p + 8 <= |s|
  {
    CodeException(U2At(s, p), U2At(s, p + 2), U2At(s, p + 4), ResolvedCatchType(pool, U2At(s, p + 6)))
  }

  /**
    The CodeException constructor. A non-zero catch_type that is not a
    class/string constant is reported and left null; decoding carries on.
   */
  function DecodeCodeException(pool: Pool, s: seq<byte>, c: Cursor): (r: Parsed<CodeException>)
    ensures r.Parsed? <==> c.pos + 8 <= |s|
    ensures r.Parsed? ==> r.next.pos == c.pos + 8 && r.value == CodeExceptionAt(pool, s, c.pos)
    ensures r.Parsed? ==>
              var k := U2At(s, c.pos + 6);
              && (k == 0 ==> r.value.catchType.None?)
              && (r.value.catchType.Some? ==> r.value.catchType.value == k && IsClassOrStringAt(pool, k))
              && (r.next.log == c.log <==> k == 0 || IsClassOrStringAt(pool, k))
              && (r.next.log != c.log ==> r.next.log == c.log + [CatchTypeNotClass(k)])
  {
    var startPc := ReadU2(s, c);
    if startPc.Truncated? then Truncated(startPc.at) else
    var endPc := ReadU2(s, startPc.next);
    if endPc.Truncated? then Truncated(endPc.at) else
    var handlerPc := ReadU2(s, endPc.next);
    if handlerPc.Truncated? then Truncated(handlerPc.at) else
    var catchIx := ReadU2(s, handlerPc.next);
    if catchIx.Truncated? then Truncated(catchIx.at) else
    var k := catchIx.value;
    var c1 := catchIx.next;
    var entry := CodeException(startPc.value, endPc.value, handlerPc.value, None);
    if k > 0 then
      match Lookup(pool, k)
      case Some(ClassOrString(_)) => Parsed(entry.(catchType := Some(k)), c1)
      case _ => Parsed(entry, Cursor(c1.pos, c1.log + [CatchTypeNotClass(k)]))
    else
      Parsed(entry, c1)
  }

  /** `n` consecutive entries of eight bytes each, in stream order. */
  function DecodeCodeExceptions(n: nat, pool: Pool, s: seq<byte>, c: Cursor): (r: Parsed<seq<CodeException>>)
    requires c.pos <= |s|
    ensures r.Parsed? <==> c.pos + 8 * n <= |s|
    ensures r.Parsed? ==> r.next.pos == c.pos + 8 * n && |r.value| == n && c.log <= r.next.log
    ensures r.Parsed? ==> forall i :: 0 <= i < n ==> r.value[i] == CodeExceptionAt(pool, s, c.pos + 8 * i)
    decreases n
  {
    if n == 0 then Parsed([], c) else
    var first := DecodeCodeException(pool, s, c);
    if first.Truncated? then Truncated(first.at) else
    var rest := DecodeCodeExceptions(n - 1, pool, s, first.next);
    if rest.Truncated? then Truncated(rest.at) else
    Parsed([first.value] + rest.value, rest.next)
  }

  /**
    The u2 exceptions_table_length and the entries that follow it; a zero
    count leaves the table null.
   */
  function DecodeExceptionTable(pool: Pool, s: seq<byte>, c: Cursor): (r: Parsed<Option<seq<CodeException>>>)
    ensures r.Parsed? <==> c.pos + 2 <= |s| && c.pos + 2 + 8 * U2At(s, c.pos) <= |s|
    ensures r.Parsed? ==> r.next.pos == c.pos + 2 + 8 * U2At(s, c.pos) && c.log <= r.next.log
    ensures r.Parsed? ==> (r.value.None? <==> U2At(s, c.pos) == 0)
    ensures r.Parsed? && r.value.Some? ==>
              |r.value.value| == U2At(s, c.pos)
              && forall i :: 0 <= i < |r.value.value| ==>
                   r.value.value[i] == CodeExceptionAt(pool, s, c.pos + 2 + 8 * i)
  {
    var count := ReadU2(s, c);
    if count.Truncated? then Truncated(count.at) else
    if count.value > 0 then
      var entries := DecodeCodeExceptions(count.value, pool, s, count.next);
      if entries.Truncated? then Truncated(entries.at) else Parsed(Some(entries.value), entries.next)
    else
      Parsed(None, count.next)
  }

  // Encoding, the inverse used to state the round trip.

  /** An entry as a compiler writes it: 16-bit fields, catch type resolvable. */
  predicate WellFormedCodeException(pool: Pool, e: CodeException) {
    && e.startPc < U2_LIMIT && e.endPc < U2_LIMIT && e.handlerPc < U2_LIMIT
    && (e.catchType.Some? ==> 0 < e.catchType.value < U2_LIMIT && IsClassOrStringAt(pool, e.catchType.value))
  }

  function CodeExceptionBytes(pool: Pool, e: CodeException): (b: seq<byte>)
    requires WellFormedCodeException(pool, e)
    ensures |b| == 8
  {
    U2Bytes(e.startPc) + U2Bytes(e.endPc) + U2Bytes(e.handlerPc)
    + U2Bytes(if e.catchType.Some? then e.catchType.value else 0)
  }

  function CodeExceptionsBytes(pool: Pool, es: seq<CodeException>): (b: seq<byte>)
    requires forall i :: 0 <= i < |es| ==> WellFormedCodeException(pool, es[i])
    ensures |b| == 8 * |es|
  {
    if |es| == 0 then [] else CodeExceptionBytes(pool, es[0]) + CodeExceptionsBytes(pool, es[1..])
  }

  /** A well-formed entry reads back unchanged, consuming 8 bytes and reporting nothing. */
  lemma DecodeCodeExceptionEncoded(pool: Pool, e: CodeException, s: seq<byte>, c: Cursor)
    requires WellFormedCodeException(pool, e)
    requires At(s, c.pos, CodeExceptionBytes(pool, e))
    ensures DecodeCodeException(pool, s, c) == Parsed(e, Cursor(c.pos + 8, c.log))
  {
    var k := if e.catchType.Some? then e.catchType.value else 0;
    AtConcat(s, c.pos, U2Bytes(e.startPc) + U2Bytes(e.endPc) + U2Bytes(e.handlerPc), U2Bytes(k));
    AtConcat(s, c.pos, U2Bytes(e.startPc) + U2Bytes(e.endPc), U2Bytes(e.handlerPc));
    AtConcat(s, c.pos, U2Bytes(e.startPc), U2Bytes(e.endPc));
    ReadU2Encoded(s, c, e.startPc);
    ReadU2Encoded(s, Cursor(c.pos + 2, c.log), e.endPc);
    ReadU2Encoded(s, Cursor(c.pos + 4, c.log), e.handlerPc);
    ReadU2Encoded(s, Cursor(c.pos + 6, c.log), k);
  }

  lemma {:induction false} DecodeCodeExceptionsEncoded(pool: Pool, es: seq<CodeException>, s: seq<byte>, c: Cursor)
    requires forall i :: 0 <= i < |es| ==> WellFormedCodeException(pool, es[i])
    requires At(s, c.pos, CodeExceptionsBytes(pool, es))
    ensures DecodeCodeExceptions(|es|, pool, s, c) == Parsed(es, Cursor(c.pos + 8 * |es|, c.log))
    decreases |es|
  {
    if |es| > 0 {
      AtConcat(s, c.pos, CodeExceptionBytes(pool, es[0]), CodeExceptionsBytes(pool, es[1..]));
      DecodeCodeExceptionEncoded(pool, es[0], s, c);
      DecodeCodeExceptionsEncoded(pool, es[1..], s, Cursor(c.pos + 8, c.log));
      assert [es[0]] + es[1..] == es;
    }
  }

  /** The exception table as written: a u2 count and the entries; a null table is a zero count. */
  function ExceptionTableBytes(pool: Pool, table: Option<seq<CodeException>>): (e: seq<byte>)
    requires table.Some? ==>
               0 < |table.value| < U2_LIMIT
               && forall i :: 0 <= i < |table.value| ==> WellFormedCodeException(pool, table.value[i])
  {
    if table.Some? then U2Bytes(|table.value|) + CodeExceptionsBytes(pool, table.value) else U2Bytes(0)
  }

  /** A written exception table reads back unchanged, null staying null. */
  lemma DecodeExceptionTableEncoded(pool: Pool, table: Option<seq<CodeException>>, s: seq<byte>, c: Cursor)
    requires table.Some? ==>
               0 < |table.value| < U2_LIMIT
               && forall i :: 0 <= i < |table.value| ==> WellFormedCodeException(pool, table.value[i])
    requires At(s, c.pos, ExceptionTableBytes(pool, table))
    ensures DecodeExceptionTable(pool, s, c) == Parsed(table, Cursor(c.pos + |ExceptionTableBytes(pool, table)|, c.log))
  {
    if table.Some? {
      AtConcat(s, c.pos, U2Bytes(|table.value|), CodeExceptionsBytes(pool, table.value));
      ReadU2Encoded(s, c, |table.value|);
      DecodeCodeExceptionsEncoded(pool, table.value, s, Cursor(c.pos + 2, c.log));
    } else {
      ReadU2Encoded(s, c, 0);
    }
  }
}
