/**
  The body of a LineNumberTable attribute (section 4.7.12 of the Java
  Virtual Machine Specification, Java SE 8 edition): a u2 count followed by
  that many (u2 start_pc, u2 line_number) pairs.
 */
module LineNumbers {
  import opened Optional
  import opened Stream

  /** One pair; the field selectors are the `getStartPC` / `getLineNumber` getters. */
  datatype LineNumber = LineNumber(startPc: nat, lineNumber: nat)

  /** The pair stored at offset `p`. */
  ghost function LineNumberAt(s: seq<byte>, p: nat): LineNumber
    requires p + 4 <= |s|
  {
    LineNumber(U2At(s, p), U2At(s, p + 2))
  }

  predicate ValidLineNumber(e: LineNumber) {
    e.startPc < U2_LIMIT && e.lineNumber < U2_LIMIT
  }

  function DecodeLineNumber(s: seq<byte>, c: Cursor): (r: Parsed<LineNumber>)
    ensures r.Parsed? <==> c.pos + 4 <= |s|
    ensures r.Parsed? ==> r.next == Cursor(c.pos + 4, c.log)
    ensures r.Parsed? ==> r.value == LineNumberAt(s, c.pos) && ValidLineNumber(r.value)
  {
    var startPc := ReadU2(s, c);
    if startPc.Truncated? then Truncated(startPc.at) else
    var lineNumber := ReadU2(s, startPc.next);
    if lineNumber.Truncated? then Truncated(lineNumber.at) else
    Parsed(LineNumber(startPc.value, lineNumber.value), lineNumber.next)
  }

  /** `n` consecutive pairs, entry `i` being the `i`-th pair in the stream. */
  function DecodeLineNumbers(n: nat, s: seq<byte>, c: Cursor): (r: Parsed<seq<LineNumber>>)
    requires c.pos <= |s|
    ensures r.Parsed? <==> c.pos + 4 * n <= |s|
    ensures r.Parsed? ==> r.next == Cursor(c.pos + 4 * n, c.log) && |r.value| == n
    ensures r.Parsed? ==> forall i :: 0 <= i < n ==> r.value[i] == LineNumberAt(s, c.pos + 4 * i)
    decreases n
  {
    if n == 0 then Parsed([], c) else
    var first := DecodeLineNumber(s, c);
    if first.Truncated? then Truncated(first.at) else
    var rest := DecodeLineNumbers(n - 1, s, first.next);
    if rest.Truncated? then Truncated(rest.at) else
    Parsed([first.value] + rest.value, rest.next)
  }

  /**
    The LineNumberTable constructor after the attribute header: the count,
    then the pairs. A zero count leaves the table null (`None`), not empty.
   */
  function DecodeLineNumberTable(s: seq<byte>, c: Cursor): (r: Parsed<Option<seq<LineNumber>>>)
    ensures r.Parsed? <==> c.pos + 2 <= |s| && c.pos + 2 + 4 * U2At(s, c.pos) <= |s|
    ensures r.Parsed? ==> r.next == Cursor(c.pos + 2 + 4 * U2At(s, c.pos), c.log)
    ensures r.Parsed? ==> (r.value.None? <==> U2At(s, c.pos) == 0)
    ensures r.Parsed? && r.value.Some? ==>
              |r.value.value| == U2At(s, c.pos)
              && forall i :: 0 <= i < |r.value.value| ==> r.value.value[i] == LineNumberAt(s, c.pos + 2 + 4 * i)
  {
    var count := ReadU2(s, c);
    if count.Truncated? then Truncated(count.at) else
    if count.value > 0 then
      var entries := DecodeLineNumbers(count.value, s, count.next);
      if entries.Truncated? then Truncated(entries.at) else
      Parsed(Some(entries.value), entries.next)
    else
      Parsed(None, count.next)
  }

  // Encoding, the inverse used to state the round trip.

  function LineNumberBytes(e: LineNumber): (b: seq<byte>)
    requires ValidLineNumber(e)
    ensures |b| == 4
  {
    U2Bytes(e.startPc) + U2Bytes(e.lineNumber)
  }

  function LineNumbersBytes(es: seq<LineNumber>): (b: seq<byte>)
    requires forall i :: 0 <= i < |es| ==> ValidLineNumber(es[i])
    ensures |b| == 4 * |es|
  {
    if |es| == 0 then [] else LineNumberBytes(es[0]) + LineNumbersBytes(es[1..])
  }

  /** The body bytes of a table holding `es` (a null table when `es` is empty). */
  function LineNumberTableBytes(es: seq<LineNumber>): (b: seq<byte>)
    requires |es| < U2_LIMIT && forall i :: 0 <= i < |es| ==> ValidLineNumber(es[i])
    ensures |b| == 2 + 4 * |es|
  {
    U2Bytes(|es|) + LineNumbersBytes(es)
  }

  lemma {:induction false} DecodeLineNumbersEncoded(es: seq<LineNumber>, s: seq<byte>, c: Cursor)
    requires forall i :: 0 <= i < |es| ==> ValidLineNumber(es[i])
    requires At(s, c.pos, LineNumbersBytes(es))
    ensures DecodeLineNumbers(|es|, s, c) == Parsed(es, Cursor(c.pos + 4 * |es|, c.log))
    decreases |es|
  {
    if |es| > 0 {
      var e := es[0];
      AtConcat(s, c.pos, LineNumberBytes(e), LineNumbersBytes(es[1..]));
      AtConcat(s, c.pos, U2Bytes(e.startPc), U2Bytes(e.lineNumber));
      ReadU2Encoded(s, c, e.startPc);
      ReadU2Encoded(s, Cursor(c.pos + 2, c.log), e.lineNumber);
      var c1 := Cursor(c.pos + 4, c.log);
      assert DecodeLineNumber(s, c) == Parsed(e, c1);
      DecodeLineNumbersEncoded(es[1..], s, c1);
      assert [e] + es[1..] == es;
    }
  }

  /** Decoding an encoded table gives back its pairs and consumes exactly 2 + 4n bytes. */
  lemma DecodeLineNumberTableEncoded(es: seq<LineNumber>, s: seq<byte>, c: Cursor)
    requires |es| < U2_LIMIT && forall i :: 0 <= i < |es| ==> ValidLineNumber(es[i])
    requires At(s, c.pos, LineNumberTableBytes(es))
    ensures DecodeLineNumberTable(s, c)
            == Parsed(if |es| == 0 then None else Some(es), Cursor(c.pos + 2 + 4 * |es|, c.log))
  {
    AtConcat(s, c.pos, U2Bytes(|es|), LineNumbersBytes(es));
    ReadU2Encoded(s, c, |es|);
    DecodeLineNumbersEncoded(es, s, Cursor(c.pos + 2, c.log));
  }
}
