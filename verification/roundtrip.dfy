/**
  Decoding inverts encoding: the bytes of a well-formed attribute decode
  to that attribute, consume exactly their own length and report nothing.
  The proof follows the decoder's own recursion through nested Code
  attributes.
 */
module RoundTrip {
  import opened Optional
  import opened Stream
  import opened ConstPool
  import opened LineNumbers
  import opened CodeExceptions
  import opened Attributes
  import opened AttrFactory
  import opened AttrEncoding

  /**
    The empty method body: a Code attribute with max_stack 0, max_locals 0,
    code_length 0 and both counts 0 decodes to null code, null table and a
    null nested array, after exactly its 18 bytes.
   */
  lemma EmptyCodeAttribute(bodies: BodyReader)
    ensures AllocAttr(map[1 := Utf8(CodeTag)], bodies, [0, 1, 0, 0, 0, 12, 0, 0, 0, 0, 0, 0, 0, 0, 0, 0, 0, 0], Cursor(0, []))
            == Parsed(Some(Attribute(CodeTag, 12, Code(0, 0, None, None, NullArray))), Cursor(18, []))
  {
    var pool: Pool := map[1 := Utf8(CodeTag)];
    var names := map[CodeTag := 1];
    var a := Attribute(CodeTag, 12, Code(0, 0, None, None, NullArray));
    var s: seq<byte> := [0, 1, 0, 0, 0, 12, 0, 0, 0, 0, 0, 0, 0, 0, 0, 0, 0, 0];
    assert WellFormed(pool, names, a);
    assert Encode(pool, names, a) == s;
    AllocAttrEncoded(pool, names, bodies, a, s, Cursor(0, []));
  }

  /** The code buffer reads back unchanged; a null buffer is a zero code_length. */
  lemma DecodeCodeBytesEncoded(code: Option<seq<byte>>, s: seq<byte>, c: Cursor)
    requires code.Some? ==> 0 < |code.value| < INT32_LIMIT
    requires At(s, c.pos, CodeBufferBytes(code))
    ensures DecodeCodeBytes(s, c) == Parsed(code, Cursor(c.pos + |CodeBufferBytes(code)|, c.log))
  {
    if code.Some? {
      AtConcat(s, c.pos, U4Bytes(|code.value|), code.value);
      ReadU4Encoded(s, c, |code.value|);
    } else {
      ReadU4Encoded(s, c, 0);
    }
  }

  /** A well-formed attribute reads back from its own bytes, consuming exactly them and reporting nothing. */
  lemma AllocAttrEncoded(pool: Pool, names: map<string, nat>, bodies: BodyReader, a: Attribute, s: seq<byte>, c: Cursor)
    requires WellFormed(pool, names, a)
    requires At(s, c.pos, Encode(pool, names, a))
    ensures AllocAttr(pool, bodies, s, c) == Parsed(Some(a), Cursor(c.pos + |Encode(pool, names, a)|, c.log))
  {
    AttrEncodedAt(pool, names, bodies, a, s, c);
  }

  /** A Code body reads back from its own bytes, nested attributes included. */
  lemma DecodeCodeEncoded(pool: Pool, names: map<string, nat>, bodies: BodyReader, a: Attribute, s: seq<byte>, c: Cursor)
    requires WellFormed(pool, names, a) && a.body.Code?
    requires At(s, c.pos, EncodeBody(pool, names, a.body))
    ensures DecodeCode(a.name, a.length, pool, bodies, s, c)
            == Parsed(a, Cursor(c.pos + |EncodeBody(pool, names, a.body)|, c.log))
  {
    CodeEncodedAt(pool, names, bodies, a, s, c);
  }

  /** The nested attribute array reads back unchanged; a null array is a zero count. */
  lemma DecodeNestedAttributesEncoded(pool: Pool, names: map<string, nat>, bodies: BodyReader,
                                      attrs: AttributeArray, s: seq<byte>, c: Cursor)
    requires WellFormedArray(pool, names, attrs)
    requires At(s, c.pos, NestedBytes(pool, names, attrs))
    ensures DecodeNestedAttributes(pool, bodies, s, c)
            == Parsed(attrs, Cursor(c.pos + |NestedBytes(pool, names, attrs)|, c.log))
  {
    NestedEncodedAt(pool, names, bodies, attrs, s, c);
  }

  /*
    The inductive proof below speaks of the decoders through the following
    names, each equal by definition to the decoder it names. They keep the
    solver from unfolding the whole recursive decoder at every step.
   */

  ghost function AttrAt(pool: Pool, bodies: BodyReader, s: seq<byte>, c: Cursor): Parsed<Option<Attribute>>
    requires c.pos <= |s|
  {
    AllocAttr(pool, bodies, s, c)
  }

  ghost function CodeAt(name: string, length: int, pool: Pool, bodies: BodyReader, s: seq<byte>, c: Cursor)
    : Parsed<Attribute>
    requires c.pos <= |s|
  {
    DecodeCode(name, length, pool, bodies, s, c)
  }

  ghost function NestedAt(pool: Pool, bodies: BodyReader, s: seq<byte>, c: Cursor): Parsed<AttributeArray>
    requires c.pos <= |s|
  {
    DecodeNestedAttributes(pool, bodies, s, c)
  }

  ghost function AttrListAt(n: nat, pool: Pool, bodies: BodyReader, s: seq<byte>, c: Cursor)
    : Parsed<seq<Option<Attribute>>>
    requires c.pos <= |s|
  {
    DecodeAttrList(n, pool, bodies, s, c)
  }

  /** The encoder's counterparts, under names of their own for the same reason. */
  ghost predicate SlotsWellFormed(pool: Pool, names: map<string, nat>, attrs: AttributeArray) {
    attrs.Slots? && forall j :: 0 <= j < |attrs.slots| ==> attrs.slots[j].Some? && WellFormed(pool, names, attrs.slots[j].value)
  }

  ghost function SlotsBytes(pool: Pool, names: map<string, nat>, attrs: AttributeArray, i: nat): seq<byte>
    requires SlotsWellFormed(pool, names, attrs) && i <= |attrs.slots|
  {
    EncodeSlots(pool, names, attrs, i)
  }

  ghost function AttrBytes(pool: Pool, names: map<string, nat>, a: Attribute): seq<byte>
    requires WellFormed(pool, names, a)
  {
    Encode(pool, names, a)
  }

  ghost function BodyBytes(pool: Pool, names: map<string, nat>, b: Body): seq<byte>
    requires WellFormedBody(pool, names, b)
  {
    EncodeBody(pool, names, b)
  }

  ghost function ArrayBytes(pool: Pool, names: map<string, nat>, attrs: AttributeArray): seq<byte>
    requires WellFormedArray(pool, names, attrs)
  {
    NestedBytes(pool, names, attrs)
  }

  /** `AllocAttrEncoded`, by induction on the attribute: the header, then the body its tag selects. */
  lemma {:induction false} AttrEncodedAt(pool: Pool, names: map<string, nat>, bodies: BodyReader,
                                         a: Attribute, s: seq<byte>, c: Cursor)
    requires WellFormed(pool, names, a)
    requires At(s, c.pos, AttrBytes(pool, names, a))
    ensures c.pos <= |s| && AttrAt(pool, bodies, s, c) == Parsed(Some(a), Cursor(c.pos + |AttrBytes(pool, names, a)|, c.log))
    decreases a, 1
  {
    var nameIndex := names[a.name];
    var rawLength := FromInt32(a.length);
    var body := BodyBytes(pool, names, a.body);
    AtConcat(s, c.pos, U2Bytes(nameIndex) + U4Bytes(rawLength), body);
    AtConcat(s, c.pos, U2Bytes(nameIndex), U4Bytes(rawLength));
    ReadU2Encoded(s, c, nameIndex);
    ReadU4Encoded(s, Cursor(c.pos + 2, c.log), rawLength);
    var header := Cursor(c.pos + 6, c.log);
    if a.body.Code? {
      CodeEncodedAt(pool, names, bodies, a, s, header);
      DispatchCode(a.name, a.length, pool, bodies, s, header, a, Cursor(header.pos + |body|, c.log));
    } else {
      match a.body
      case LineNumberTable(table) =>
        var es := if table.Some? then table.value else [];
        DecodeLineNumberTableEncoded(es, s, header);
        DispatchLineNumberTable(a.name, a.length, pool, bodies, s, header, table, Cursor(header.pos + |body|, c.log));
      case Synthetic =>
        DispatchMarker(a.name, a.length, pool, bodies, s, header, a.body);
      case Deprecated =>
        DispatchMarker(a.name, a.length, pool, bodies, s, header, a.body);
    }
  }

  /** The dispatch on the Code tag returns what the Code decoder returns. */
  lemma DispatchCode(name: string, length: int, pool: Pool, bodies: BodyReader, s: seq<byte>, c: Cursor,
                     a: Attribute, next: Cursor)
    requires c.pos <= |s| && name == CodeTag
    requires CodeAt(name, length, pool, bodies, s, c) == Parsed(a, next)
    ensures Dispatch(name, length, pool, bodies, s, c) == Parsed(Some(a), next)
  {
  }

  /** The dispatch on the LineNumberTable tag returns what the table decoder returns. */
  lemma DispatchLineNumberTable(name: string, length: int, pool: Pool, bodies: BodyReader, s: seq<byte>, c: Cursor,
                                table: Option<seq<LineNumber>>, next: Cursor)
    requires c.pos <= |s| && name == LineNumberTableTag
    requires DecodeLineNumberTable(s, c) == Parsed(table, next)
    ensures Dispatch(name, length, pool, bodies, s, c) == Parsed(Some(Attribute(name, length, LineNumberTable(table))), next)
  {
  }

  /** The Synthetic and Deprecated tags build their marker without reading. */
  lemma DispatchMarker(name: string, length: int, pool: Pool, bodies: BodyReader, s: seq<byte>, c: Cursor, body: Body)
    requires c.pos <= |s|
    requires (name == SyntheticTag && body == Synthetic) || (name == DeprecatedTag && body == Deprecated)
    ensures Dispatch(name, length, pool, bodies, s, c) == Parsed(Some(Attribute(name, length, body)), c)
  {
  }

  /** `DecodeCodeEncoded`: the nested attributes by induction, the other parts read in field order. */
  lemma {:induction false} CodeEncodedAt(pool: Pool, names: map<string, nat>, bodies: BodyReader,
                                         a: Attribute, s: seq<byte>, c: Cursor)
    requires WellFormed(pool, names, a) && a.body.Code?
    requires At(s, c.pos, BodyBytes(pool, names, a.body))
    ensures c.pos <= |s|
    ensures CodeAt(a.name, a.length, pool, bodies, s, c)
            == Parsed(a, Cursor(c.pos + |BodyBytes(pool, names, a.body)|, c.log))
    decreases a, 0
  {
    var nestedPos := NestedPos(pool, names, a.body, c.pos);
    NestedPartAt(pool, names, a.body, s, c.pos, nestedPos);
    NestedEncodedAt(pool, names, bodies, a.body.attributes, s, Cursor(nestedPos, c.log));
    DecodeCodeOfNested(pool, names, bodies, a, s, c);
  }

  /** Where the nested attribute count of an encoded Code body at `p` is written. */
  function NestedPos(pool: Pool, names: map<string, nat>, b: Body, p: nat): nat
    requires b.Code? && WellFormedBody(pool, names, b)
  {
    p + 4 + |CodeBufferBytes(b.code)| + |ExceptionTableBytes(pool, b.exceptionTable)|
  }

  /** An encoded Code body decodes back once its nested attributes are known to. */
  lemma DecodeCodeOfNested(pool: Pool, names: map<string, nat>, bodies: BodyReader, a: Attribute, s: seq<byte>, c: Cursor)
    requires WellFormed(pool, names, a) && a.body.Code?
    requires At(s, c.pos, BodyBytes(pool, names, a.body))
    requires var nestedAt := NestedPos(pool, names, a.body, c.pos);
             && nestedAt <= |s|
             && NestedAt(pool, bodies, s, Cursor(nestedAt, c.log))
                == Parsed(a.body.attributes, Cursor(nestedAt + |ArrayBytes(pool, names, a.body.attributes)|, c.log))
    ensures c.pos <= |s|
    ensures CodeAt(a.name, a.length, pool, bodies, s, c)
            == Parsed(a, Cursor(c.pos + |BodyBytes(pool, names, a.body)|, c.log))
  {
    var b := a.body;
    var tablePos := c.pos + 4 + |CodeBufferBytes(b.code)|;
    var nestedPos := NestedPos(pool, names, b, c.pos);
    var end := Cursor(nestedPos + |ArrayBytes(pool, names, b.attributes)|, c.log);
    MaxValuesEncoded(pool, names, b, s, c);
    CodeBufferEncoded(pool, names, b, s, c);
    ExceptionTableEncoded(pool, names, b, s, c, tablePos);
    NestedPartAt(pool, names, b, s, c.pos, nestedPos);
    DecodeCodeOfReads(a.name, a.length, pool, bodies, s, c, b, Cursor(tablePos, c.log), Cursor(nestedPos, c.log), end);
    assert Attribute(a.name, a.length, b) == a;
  }

  /** An encoded Code body starts with max_stack and max_locals. */
  lemma MaxValuesEncoded(pool: Pool, names: map<string, nat>, b: Body, s: seq<byte>, c: Cursor)
    requires b.Code? && WellFormedBody(pool, names, b)
    requires At(s, c.pos, BodyBytes(pool, names, b))
    ensures c.pos + 4 <= |s|
    ensures ReadU2(s, c) == Parsed(b.maxStack, Cursor(c.pos + 2, c.log))
    ensures ReadU2(s, Cursor(c.pos + 2, c.log)) == Parsed(b.maxLocals, Cursor(c.pos + 4, c.log))
  {
    var stack, locals := U2Bytes(b.maxStack), U2Bytes(b.maxLocals);
    EncodeCodeBody(pool, names, b);
    SplitMaxes(s, c.pos, stack + locals, CodeBufferBytes(b.code), ExceptionTableBytes(pool, b.exceptionTable),
               ArrayBytes(pool, names, b.attributes));
    AtConcat(s, c.pos, stack, locals);
    ReadU2Encoded(s, c, b.maxStack);
    ReadU2Encoded(s, Cursor(c.pos + 2, c.log), b.maxLocals);
  }

  /** The code buffer of an encoded Code body reads back after the two max values. */
  lemma CodeBufferEncoded(pool: Pool, names: map<string, nat>, b: Body, s: seq<byte>, c: Cursor)
    requires b.Code? && WellFormedBody(pool, names, b)
    requires At(s, c.pos, BodyBytes(pool, names, b))
    ensures DecodeCodeBytes(s, Cursor(c.pos + 4, c.log))
            == Parsed(b.code, Cursor(c.pos + 4 + |CodeBufferBytes(b.code)|, c.log))
  {
    EncodeCodeBody(pool, names, b);
    SplitCode(s, c.pos, U2Bytes(b.maxStack) + U2Bytes(b.maxLocals), CodeBufferBytes(b.code),
              ExceptionTableBytes(pool, b.exceptionTable), ArrayBytes(pool, names, b.attributes), c.pos + 4);
    DecodeCodeBytesEncoded(b.code, s, Cursor(c.pos + 4, c.log));
  }

  /** The exception table of an encoded Code body reads back from `tableAt`, right after the code buffer. */
  lemma ExceptionTableEncoded(pool: Pool, names: map<string, nat>, b: Body, s: seq<byte>, c: Cursor, tableAt: nat)
    requires b.Code? && WellFormedBody(pool, names, b)
    requires At(s, c.pos, BodyBytes(pool, names, b))
    requires tableAt == c.pos + 4 + |CodeBufferBytes(b.code)|
    ensures DecodeExceptionTable(pool, s, Cursor(tableAt, c.log))
            == Parsed(b.exceptionTable, Cursor(tableAt + |ExceptionTableBytes(pool, b.exceptionTable)|, c.log))
  {
    EncodeCodeBody(pool, names, b);
    SplitTable(s, c.pos, U2Bytes(b.maxStack) + U2Bytes(b.maxLocals), CodeBufferBytes(b.code),
               ExceptionTableBytes(pool, b.exceptionTable), ArrayBytes(pool, names, b.attributes), tableAt);
    DecodeExceptionTableEncoded(pool, b.exceptionTable, s, Cursor(tableAt, c.log));
  }

  /** The nested attributes of an encoded Code body sit at `nestedAt`, after its exception table, and end the body. */
  lemma NestedPartAt(pool: Pool, names: map<string, nat>, b: Body, s: seq<byte>, p: nat, nestedAt: nat)
    requires b.Code? && WellFormedBody(pool, names, b)
    requires At(s, p, BodyBytes(pool, names, b))
    requires nestedAt == p + 4 + |CodeBufferBytes(b.code)| + |ExceptionTableBytes(pool, b.exceptionTable)|
    ensures WellFormedArray(pool, names, b.attributes)
    ensures At(s, nestedAt, ArrayBytes(pool, names, b.attributes))
    ensures nestedAt + |ArrayBytes(pool, names, b.attributes)| == p + |BodyBytes(pool, names, b)|
  {
    EncodeCodeBody(pool, names, b);
    SplitNested(s, p, U2Bytes(b.maxStack) + U2Bytes(b.maxLocals), CodeBufferBytes(b.code),
                ExceptionTableBytes(pool, b.exceptionTable), ArrayBytes(pool, names, b.attributes), nestedAt);
  }

  /*
    The four parts of a Code body laid out as `maxes + code + table + nested`,
    each found at its own offset. They are stated over plain sequences, one
    part per lemma, so that the encoder's definitions stay folded.
   */

  lemma SplitMaxes(s: seq<byte>, p: nat, maxes: seq<byte>, code: seq<byte>, table: seq<byte>, nested: seq<byte>)
    requires At(s, p, maxes + code + table + nested)
    ensures At(s, p, maxes)
  {
    AtConcat(s, p, maxes + code + table, nested);
    AtConcat(s, p, maxes + code, table);
    AtConcat(s, p, maxes, code);
  }

  lemma SplitCode(s: seq<byte>, p: nat, maxes: seq<byte>, code: seq<byte>, table: seq<byte>, nested: seq<byte>, q: nat)
    requires At(s, p, maxes + code + table + nested) && q == p + |maxes|
    ensures At(s, q, code)
  {
    AtConcat(s, p, maxes + code + table, nested);
    AtConcat(s, p, maxes + code, table);
    AtConcat(s, p, maxes, code);
  }

  lemma SplitTable(s: seq<byte>, p: nat, maxes: seq<byte>, code: seq<byte>, table: seq<byte>, nested: seq<byte>, q: nat)
    requires At(s, p, maxes + code + table + nested) && q == p + |maxes| + |code|
    ensures At(s, q, table)
  {
    AtConcat(s, p, maxes + code + table, nested);
    AtConcat(s, p, maxes + code, table);
  }

  lemma SplitNested(s: seq<byte>, p: nat, maxes: seq<byte>, code: seq<byte>, table: seq<byte>, nested: seq<byte>, q: nat)
    requires At(s, p, maxes + code + table + nested) && q == p + |maxes| + |code| + |table|
    ensures At(s, q, nested)
    ensures q + |nested| == p + |maxes + code + table + nested|
  {
    AtConcat(s, p, maxes + code + table, nested);
  }

  /** `DecodeCode` once each of its parts is known to read a given value. */
  lemma DecodeCodeOfReads(name: string, length: int, pool: Pool, bodies: BodyReader, s: seq<byte>, c: Cursor,
                          b: Body, tableAt: Cursor, nestedAt: Cursor, end: Cursor)
    requires b.Code? && c.pos + 4 <= |s|
    requires ReadU2(s, c) == Parsed(b.maxStack, Cursor(c.pos + 2, c.log))
    requires ReadU2(s, Cursor(c.pos + 2, c.log)) == Parsed(b.maxLocals, Cursor(c.pos + 4, c.log))
    requires DecodeCodeBytes(s, Cursor(c.pos + 4, c.log)) == Parsed(b.code, tableAt)
    requires DecodeExceptionTable(pool, s, tableAt) == Parsed(b.exceptionTable, nestedAt)
    requires nestedAt.pos <= |s| && NestedAt(pool, bodies, s, nestedAt) == Parsed(b.attributes, end)
    ensures CodeAt(name, length, pool, bodies, s, c) == Parsed(Attribute(name, length, b), end)
  {
  }

  /** The parts of a written Code body, in field order. */
  lemma EncodeCodeBody(pool: Pool, names: map<string, nat>, b: Body)
    requires b.Code? && WellFormedBody(pool, names, b)
    ensures BodyBytes(pool, names, b)
            == U2Bytes(b.maxStack) + U2Bytes(b.maxLocals) + CodeBufferBytes(b.code)
               + ExceptionTableBytes(pool, b.exceptionTable) + ArrayBytes(pool, names, b.attributes)
  {
  }

  /** `DecodeNestedAttributesEncoded`: the count, then the slots by induction. */
  lemma {:induction false} NestedEncodedAt(pool: Pool, names: map<string, nat>, bodies: BodyReader,
                                           attrs: AttributeArray, s: seq<byte>, c: Cursor)
    requires WellFormedArray(pool, names, attrs)
    requires At(s, c.pos, ArrayBytes(pool, names, attrs))
    ensures c.pos <= |s|
    ensures NestedAt(pool, bodies, s, c) == Parsed(attrs, Cursor(c.pos + |ArrayBytes(pool, names, attrs)|, c.log))
    decreases attrs, 1
  {
    if attrs.Slots? {
      AtConcat(s, c.pos, U2Bytes(|attrs.slots|), EncodeSlots(pool, names, attrs, 0));
      ReadU2Encoded(s, c, |attrs.slots|);
      SlotsEncodedAt(pool, names, bodies, attrs, 0, |attrs.slots|, s, Cursor(c.pos + 2, c.log),
                     c.pos + 2 + |SlotsBytes(pool, names, attrs, 0)|);
      assert attrs.slots[0..] == attrs.slots;
    } else {
      ReadU2Encoded(s, c, 0);
    }
  }


  /** The slots from `i` on read back as the next `n` attributes, ending at `endPos`. */
  lemma {:induction false} SlotsEncodedAt(pool: Pool, names: map<string, nat>, bodies: BodyReader,
                                          attrs: AttributeArray, i: nat, n: nat, s: seq<byte>, c: Cursor, endPos: nat)
    requires SlotsWellFormed(pool, names, attrs) && i + n == |attrs.slots|
    requires At(s, c.pos, SlotsBytes(pool, names, attrs, i))
    requires endPos == c.pos + |SlotsBytes(pool, names, attrs, i)|
    ensures c.pos <= |s| && AttrListAt(n, pool, bodies, s, c) == Parsed(attrs.slots[i..], Cursor(endPos, c.log))
    decreases attrs, 0, n
  {
    if n > 0 {
      var first := attrs.slots[i].value;
      var c1 := Cursor(c.pos + |AttrBytes(pool, names, first)|, c.log);
      SlotsSplit(pool, names, attrs, i, s, c.pos);
      AttrEncodedAt(pool, names, bodies, first, s, c);
      SlotsEncodedAt(pool, names, bodies, attrs, i + 1, n - 1, s, c1, endPos);
      AttrListStep(n, pool, bodies, s, c, attrs.slots, i, first, c1, Cursor(endPos, c.log));
    } else {
      assert attrs.slots[i..] == [];
    }
  }

  /** The slots from `i` on are written as slot `i` followed by the slots after it. */
  lemma SlotsSplit(pool: Pool, names: map<string, nat>, attrs: AttributeArray, i: nat, s: seq<byte>, p: nat)
    requires SlotsWellFormed(pool, names, attrs) && i < |attrs.slots|
    requires At(s, p, SlotsBytes(pool, names, attrs, i))
    ensures WellFormed(pool, names, attrs.slots[i].value)
    ensures At(s, p, AttrBytes(pool, names, attrs.slots[i].value))
    ensures At(s, p + |AttrBytes(pool, names, attrs.slots[i].value)|, SlotsBytes(pool, names, attrs, i + 1))
    ensures |SlotsBytes(pool, names, attrs, i)|
            == |AttrBytes(pool, names, attrs.slots[i].value)| + |SlotsBytes(pool, names, attrs, i + 1)|
  {
    AtConcat(s, p, Encode(pool, names, attrs.slots[i].value), EncodeSlots(pool, names, attrs, i + 1));
  }

  /** One step of the attribute-list loop, stated on the slots it yields. */
  lemma AttrListStep(n: nat, pool: Pool, bodies: BodyReader, s: seq<byte>, c: Cursor,
                     slots: seq<Option<Attribute>>, i: nat, first: Attribute, c1: Cursor, end: Cursor)
    requires c.pos <= |s| && 0 < n && i < |slots| && slots[i] == Some(first)
    requires AttrAt(pool, bodies, s, c) == Parsed(Some(first), c1)
    requires c1.pos <= |s| && AttrListAt(n - 1, pool, bodies, s, c1) == Parsed(slots[i + 1..], end)
    ensures AttrListAt(n, pool, bodies, s, c) == Parsed(slots[i..], end)
  {
    assert [slots[i]] + slots[i + 1..] == slots[i..];
  }
}
