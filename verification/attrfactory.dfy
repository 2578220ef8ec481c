/**
  The attribute factory and the Code attribute, which re-enters it for its
  nested attribute list. The recursion terminates because every attribute
  consumes at least its six header bytes: the measure is the number of
  unread bytes.
 */
module AttrFactory {
  import opened Optional
  import opened Stream
  import opened ConstPool
  import opened LineNumbers
  import opened CodeExceptions
  import opened Attributes

  /** The number of bytes a Java `for (i = 0; i < len; i++)` loop runs for. */
  function LoopCount(len: int): (n: nat)
    ensures len > 0 ==> n == len
    ensures len <= 0 ==> n == 0
  {
    if len > 0 then len else 0
  }

  /** Unknown attributes are skipped byte by byte; a negative length skips nothing. */
  function SkipData(len: int, s: seq<byte>, c: Cursor): (r: Parsed<()>)
    ensures r.Parsed? <==> c.pos + LoopCount(len) <= |s|
    ensures r.Parsed? ==> r.next == Cursor(c.pos + LoopCount(len), c.log)
  {
    var skipped := ReadBytes(s, c, LoopCount(len));
    if skipped.Truncated? then Truncated(skipped.at) else Parsed((), skipped.next)
  }

  /**
    `allocAttr`: read the u2 name index and the u4 length, resolve the name
    as a UTF-8 constant, then build the matching variant. A name that is
    not UTF-8 is reported and yields null after the header alone.
   */
  function AllocAttr(pool: Pool, bodies: BodyReader, s: seq<byte>, c: Cursor): (r: Parsed<Option<Attribute>>)
    requires c.pos <= |s|
    ensures |s| < c.pos + 6 ==> r.Truncated?
    ensures r.Parsed? ==> c.pos + 6 <= r.next.pos <= |s| && c.log <= r.next.log
    ensures r.Parsed? && r.value.Some? ==>
              && IsUtf8At(pool, U2At(s, c.pos))
              && r.value.value.name == pool[U2At(s, c.pos)].text
              && r.value.value.length == ToInt32(U4At(s, c.pos + 2))
              && IsConstructedTag(r.value.value.name)
              && BodyFitsTag(r.value.value.name, r.value.value.body)
    decreases |s| - c.pos, 0
  {
    var nameIndex := ReadU2(s, c);
    if nameIndex.Truncated? then Truncated(nameIndex.at) else
    var rawLength := ReadU4(s, nameIndex.next);
    if rawLength.Truncated? then Truncated(rawLength.at) else
    var length := ToInt32(rawLength.value);
    var header := rawLength.next;
    match Lookup(pool, nameIndex.value)
    case Some(Utf8(name)) => Dispatch(name, length, pool, bodies, s, header)
    case _ => Parsed(None, Cursor(header.pos, header.log + [BadNameIndex(nameIndex.value)]))
  }

  /** The tag comparison chain of `allocAttr`, entered with the cursor after the header. */
  function Dispatch(name: string, length: int, pool: Pool, bodies: BodyReader, s: seq<byte>, c: Cursor)
    : (r: Parsed<Option<Attribute>>)
    requires c.pos <= |s|
    ensures r.Parsed? ==> c.pos <= r.next.pos <= |s| && c.log <= r.next.log
    ensures r.Parsed? ==> (r.value.Some? <==> IsConstructedTag(name))
    ensures r.Parsed? && r.value.Some? ==>
              r.value.value.name == name && r.value.value.length == length && BodyFitsTag(name, r.value.value.body)
    ensures name == InnerClassesTag || name == SyntheticTag || name == DeprecatedTag ==> r.Parsed? && r.next == c
    ensures !IsKnownTag(name) ==>
              (r.Parsed? <==> c.pos + LoopCount(length) <= |s|)
              && (r.Parsed? ==> r.next == Cursor(c.pos + LoopCount(length), c.log))
    decreases |s| - c.pos, 1
  {
    if name == SourceFileTag then DecodeOpaque(SourceFileKind, length, pool, bodies, s, c)
    else if name == ConstantValueTag then DecodeOpaque(ConstantValueKind, length, pool, bodies, s, c)
    else if name == CodeTag then
      var code := DecodeCode(name, length, pool, bodies, s, c);
      if code.Truncated? then Truncated(code.at) else Parsed(Some(code.value), code.next)
    else if name == ExceptionsTag then DecodeOpaque(ExceptionsKind, length, pool, bodies, s, c)
    else if name == InnerClassesTag then Parsed(None, c)
    else if name == LineNumberTableTag then
      var table := DecodeLineNumberTable(s, c);
      if table.Truncated? then Truncated(table.at) else
      Parsed(Some(Attribute(name, length, LineNumberTable(table.value))), table.next)
    else if name == LocalVariableTableTag then DecodeOpaque(LocalVariableTableKind, length, pool, bodies, s, c)
    else if name == SyntheticTag then Parsed(Some(Attribute(name, length, Synthetic)), c)
    else if name == DeprecatedTag then Parsed(Some(Attribute(name, length, Deprecated)), c)
    else
      var skipped := SkipData(length, s, c);
      if skipped.Truncated? then Truncated(skipped.at) else Parsed(None, skipped.next)
  }

  /** A body decoded by a sub-parser outside this model; it keeps the bytes consumed. */
  function DecodeOpaque(kind: OpaqueKind, length: int, pool: Pool, bodies: BodyReader, s: seq<byte>, c: Cursor)
    : (r: Parsed<Option<Attribute>>)
    requires c.pos <= |s|
    ensures r.Parsed? ==> c.pos <= r.next.pos <= |s| && r.next.log == c.log
    ensures r.Parsed? ==>
              && r.value == Some(Attribute(KindTag(kind), length, OpaqueBody(kind, s[c.pos..r.next.pos])))
    ensures var n := bodies(kind, length, pool, s[c.pos..]);
            (r.Parsed? <==> n.Some?) && (r.Parsed? ==> r.next.pos == c.pos + n.value)
  {
    match bodies(kind, length, pool, s[c.pos..])
    case None => Truncated(c.pos)
    case Some(n) =>
      Parsed(Some(Attribute(KindTag(kind), length, OpaqueBody(kind, s[c.pos..c.pos + n]))), Cursor(c.pos + n, c.log))
  }

  /** code_length and the code bytes, copied verbatim; a length that is not positive leaves the buffer null. */
  function DecodeCodeBytes(s: seq<byte>, c: Cursor): (r: Parsed<Option<seq<byte>>>)
    ensures r.Parsed? ==>
              && c.pos + 4 <= |s|
              && var codeLength := ToInt32(U4At(s, c.pos));
                 && r.next == Cursor(c.pos + 4 + LoopCount(codeLength), c.log)
                 && r.next.pos <= |s|
                 && (r.value.None? <==> codeLength <= 0)
                 && (r.value.Some? ==> r.value.value == s[c.pos + 4..r.next.pos])
    ensures r.Truncated? <==>
              c.pos + 4 > |s| || c.pos + 4 + LoopCount(ToInt32(U4At(s, c.pos))) > |s|
  {
    var rawCodeLength := ReadU4(s, c);
    if rawCodeLength.Truncated? then Truncated(rawCodeLength.at) else
    var codeLength := ToInt32(rawCodeLength.value);
    if codeLength > 0 then
      var bytes := ReadBytes(s, rawCodeLength.next, codeLength);
      if bytes.Truncated? then Truncated(bytes.at) else Parsed(Some(bytes.value), bytes.next)
    else
      Parsed(None, rawCodeLength.next)
  }

  /**
    The Code constructor after the attribute header: max_stack, max_locals,
    code_length and the code bytes, the exception table, then the nested
    attribute list. Empty parts stay null.
   */
  function DecodeCode(name: string, length: int, pool: Pool, bodies: BodyReader, s: seq<byte>, c: Cursor)
    : (r: Parsed<Attribute>)
    requires c.pos <= |s|
    ensures r.Parsed? ==> c.pos + 12 <= r.next.pos <= |s| && c.log <= r.next.log
    ensures r.Parsed? ==> r.value.name == name && r.value.length == length && r.value.body.Code?
    ensures r.Parsed? ==> r.value.body.maxStack == U2At(s, c.pos) && r.value.body.maxLocals == U2At(s, c.pos + 2)
    decreases |s| - c.pos, 0
  {
    var maxStack := ReadU2(s, c);
    if maxStack.Truncated? then Truncated(maxStack.at) else
    var maxLocals := ReadU2(s, maxStack.next);
    if maxLocals.Truncated? then Truncated(maxLocals.at) else
    var code := DecodeCodeBytes(s, maxLocals.next);
    if code.Truncated? then Truncated(code.at) else
    var table := DecodeExceptionTable(pool, s, code.next);
    if table.Truncated? then Truncated(table.at) else
    var attrs := DecodeNestedAttributes(pool, bodies, s, table.next);
    if attrs.Truncated? then Truncated(attrs.at) else
    var body := Code(maxStack.value, maxLocals.value, code.value, table.value, attrs.value);
    Parsed(Attribute(name, length, body), attrs.next)
  }

  /** The u2 attributes_count and that many nested attributes; a zero count leaves the list null. */
  function DecodeNestedAttributes(pool: Pool, bodies: BodyReader, s: seq<byte>, c: Cursor)
    : (r: Parsed<AttributeArray>)
    requires c.pos <= |s|
    ensures r.Parsed? ==> c.pos + 2 <= r.next.pos <= |s| && c.log <= r.next.log
    ensures r.Parsed? ==> (r.value.NullArray? <==> U2At(s, c.pos) == 0)
    ensures r.Parsed? && r.value.Slots? ==>
              && |r.value.slots| == U2At(s, c.pos)
              && c.pos + 2 + 6 * U2At(s, c.pos) <= r.next.pos
    decreases |s| - c.pos, 0
  {
    var count := ReadU2(s, c);
    if count.Truncated? then Truncated(count.at) else
    if count.value > 0 then
      var list := DecodeAttrList(count.value, pool, bodies, s, count.next);
      if list.Truncated? then Truncated(list.at) else Parsed(Slots(list.value), list.next)
    else
      Parsed(NullArray, count.next)
  }

  /** `n` calls of `allocAttr` in a row, one per slot, in stream order. */
  function DecodeAttrList(n: nat, pool: Pool, bodies: BodyReader, s: seq<byte>, c: Cursor)
    : (r: Parsed<seq<Option<Attribute>>>)
    requires c.pos <= |s|
    ensures r.Parsed? ==> |r.value| == n && c.pos + 6 * n <= r.next.pos <= |s| && c.log <= r.next.log
    decreases |s| - c.pos, 1
  {
    if n == 0 then Parsed([], c) else
    var first := AllocAttr(pool, bodies, s, c);
    if first.Truncated? then Truncated(first.at) else
    var rest := DecodeAttrList(n - 1, pool, bodies, s, first.next);
    if rest.Truncated? then Truncated(rest.at) else
    Parsed([first.value] + rest.value, rest.next)
  }

  /** Every non-null slot of a decoded list is a constructed attribute whose body fits its tag. */
  lemma {:induction false} AttrListSlotsFitTags(n: nat, pool: Pool, bodies: BodyReader, s: seq<byte>, c: Cursor)
    requires c.pos <= |s|
    requires DecodeAttrList(n, pool, bodies, s, c).Parsed?
    ensures var slots := DecodeAttrList(n, pool, bodies, s, c).value;
            forall i :: 0 <= i < |slots| && slots[i].Some? ==>
              IsConstructedTag(slots[i].value.name) && BodyFitsTag(slots[i].value.name, slots[i].value.body)
  {
    if n > 0 {
      var first := AllocAttr(pool, bodies, s, c);
      AttrListSlotsFitTags(n - 1, pool, bodies, s, first.next);
    }
  }
}

/** Where each field of a Code attribute is read from. */
module CodeLayout {
  import opened Optional
  import opened Stream
  import opened ConstPool
  import opened CodeExceptions
  import opened Attributes
  import opened AttrFactory

  /** The Code body is assembled from the sub-decoders run back to back after max_stack and max_locals. */
  lemma CodeParts(name: string, length: int, pool: Pool, bodies: BodyReader, s: seq<byte>, c: Cursor)
    requires c.pos <= |s|
    requires DecodeCode(name, length, pool, bodies, s, c).Parsed?
    ensures c.pos + 4 <= |s|
    ensures
      var code := DecodeCodeBytes(s, Cursor(c.pos + 4, c.log));
      && code.Parsed?
      && var table := DecodeExceptionTable(pool, s, code.next);
         && table.Parsed?
         && var attrs := DecodeNestedAttributes(pool, bodies, s, table.next);
            && attrs.Parsed?
            && DecodeCode(name, length, pool, bodies, s, c).value.body
               == Code(U2At(s, c.pos), U2At(s, c.pos + 2), code.value, table.value, attrs.value)
  {
  }

  /** max_stack and max_locals come first, then code_length and the code bytes copied verbatim. */
  lemma CodeBufferLayout(name: string, length: int, pool: Pool, bodies: BodyReader, s: seq<byte>, c: Cursor)
    requires c.pos <= |s|
    requires DecodeCode(name, length, pool, bodies, s, c).Parsed?
    ensures c.pos + 8 <= |s|
    ensures
      var b := DecodeCode(name, length, pool, bodies, s, c).value.body;
      var codeLength := ToInt32(U4At(s, c.pos + 4));
      && b.maxStack == U2At(s, c.pos) && b.maxLocals == U2At(s, c.pos + 2)
      && (b.code.None? <==> codeLength <= 0)
      && c.pos + 8 + LoopCount(codeLength) + 2 <= |s|
      && (b.code.Some? ==> b.code.value == s[c.pos + 8..c.pos + 8 + codeLength])
  {
    CodeParts(name, length, pool, bodies, s, c);
  }

  /** The offset at which the exception table of the Code body at `p` starts. */
  ghost function ExceptionTableAt(s: seq<byte>, p: nat): nat
    requires p + 8 <= |s|
  {
    p + 8 + LoopCount(ToInt32(U4At(s, p + 4)))
  }

  /** The code decoder stops where the exception table starts. */
  lemma CodeEndsAtTable(s: seq<byte>, c: Cursor)
    requires c.pos + 4 <= |s| && DecodeCodeBytes(s, Cursor(c.pos + 4, c.log)).Parsed?
    ensures c.pos + 8 <= |s| && DecodeCodeBytes(s, Cursor(c.pos + 4, c.log)).next == Cursor(ExceptionTableAt(s, c.pos), c.log)
  {
  }

  /** What the exception-table decoder returns, stated at the offset where it starts. */
  lemma TableAt(pool: Pool, s: seq<byte>, tableAt: nat, log: seq<Diagnostic>)
    requires DecodeExceptionTable(pool, s, Cursor(tableAt, log)).Parsed?
    ensures tableAt + 2 <= |s|
    ensures
      var table := DecodeExceptionTable(pool, s, Cursor(tableAt, log)).value;
      var exceptLen := U2At(s, tableAt);
      && tableAt + 2 + 8 * exceptLen <= |s|
      && (table.None? <==> exceptLen == 0)
      && (table.Some? ==>
            |table.value| == exceptLen
            && forall i :: 0 <= i < exceptLen ==> table.value[i] == CodeExceptionAt(pool, s, tableAt + 2 + 8 * i))
  {
  }

  /** The exception table of a decoded Code body is what the table decoder returns at `ExceptionTableAt`. */
  lemma CodeTable(name: string, length: int, pool: Pool, bodies: BodyReader, s: seq<byte>, c: Cursor)
    requires c.pos <= |s|
    requires DecodeCode(name, length, pool, bodies, s, c).Parsed?
    ensures c.pos + 8 <= |s|
    ensures
      var table := DecodeExceptionTable(pool, s, Cursor(ExceptionTableAt(s, c.pos), c.log));
      && table.Parsed?
      && DecodeCode(name, length, pool, bodies, s, c).value.body.exceptionTable == table.value
  {
    CodeParts(name, length, pool, bodies, s, c);
    CodeEndsAtTable(s, c);
  }

  /** After the code bytes: a u2 count, then exactly that many eight-byte entries. */
  lemma ExceptionTableLayout(name: string, length: int, pool: Pool, bodies: BodyReader, s: seq<byte>, c: Cursor)
    requires c.pos <= |s|
    requires DecodeCode(name, length, pool, bodies, s, c).Parsed?
    ensures c.pos + 8 <= |s| && ExceptionTableAt(s, c.pos) + 2 <= |s|
    ensures
      var b := DecodeCode(name, length, pool, bodies, s, c).value.body;
      var tableAt := ExceptionTableAt(s, c.pos);
      var exceptLen := U2At(s, tableAt);
      && tableAt + 2 + 8 * exceptLen <= |s|
      && (b.exceptionTable.None? <==> exceptLen == 0)
      && (b.exceptionTable.Some? ==>
            |b.exceptionTable.value| == exceptLen
            && forall i :: 0 <= i < exceptLen ==>
                 b.exceptionTable.value[i] == CodeExceptionAt(pool, s, tableAt + 2 + 8 * i))
  {
    CodeTable(name, length, pool, bodies, s, c);
    TableAt(pool, s, ExceptionTableAt(s, c.pos), c.log);
  }

  /** After the exception table: a u2 count and one nested-attribute slot per count. */
  lemma NestedAttributesLayout(name: string, length: int, pool: Pool, bodies: BodyReader, s: seq<byte>, c: Cursor)
    requires c.pos <= |s|
    requires DecodeCode(name, length, pool, bodies, s, c).Parsed?
    ensures c.pos + 8 <= |s| && ExceptionTableAt(s, c.pos) + 2 <= |s|
    ensures
      var b := DecodeCode(name, length, pool, bodies, s, c).value.body;
      var tableAt := ExceptionTableAt(s, c.pos);
      var attrsAt := tableAt + 2 + 8 * U2At(s, tableAt);
      && attrsAt + 2 <= |s|
      && (b.attributes.NullArray? <==> U2At(s, attrsAt) == 0)
      && (b.attributes.Slots? ==> |b.attributes.slots| == U2At(s, attrsAt))
  {
    CodeParts(name, length, pool, bodies, s, c);
    CodeEndsAtTable(s, c);
  }
}
