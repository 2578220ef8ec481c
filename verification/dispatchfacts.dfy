/**
  What `allocAttr` does for each kind of name, stated over a stream that
  holds a given header: the u2 name index and the u4 length, big-endian.
 */
module DispatchFacts {
  import opened Optional
  import opened Stream
  import opened ConstPool
  import opened LineNumbers
  import opened Attributes
  import opened AttrFactory

  /** The stream holds the six-byte header (name index, length) at `pos`. */
  predicate HeaderAt(s: seq<byte>, pos: nat, nameIndex: nat, rawLength: nat) {
    nameIndex < U2_LIMIT && rawLength < U4_LIMIT && At(s, pos, U2Bytes(nameIndex) + U4Bytes(rawLength))
  }

  /** The header is read first: the name index from the first two bytes, the length from the next four. */
  lemma HeaderRead(s: seq<byte>, c: Cursor, nameIndex: nat, rawLength: nat)
    requires HeaderAt(s, c.pos, nameIndex, rawLength)
    ensures ReadU2(s, c) == Parsed(nameIndex, Cursor(c.pos + 2, c.log))
    ensures ReadU4(s, Cursor(c.pos + 2, c.log)) == Parsed(rawLength, Cursor(c.pos + 6, c.log))
    ensures U2At(s, c.pos) == nameIndex && U4At(s, c.pos + 2) == rawLength
  {
    AtConcat(s, c.pos, U2Bytes(nameIndex), U4Bytes(rawLength));
    ReadU2Encoded(s, c, nameIndex);
    ReadU4Encoded(s, Cursor(c.pos + 2, c.log), rawLength);
  }

  /** A name index that is not a UTF-8 constant is reported; only the header is consumed. */
  lemma BadNameIndexConsumesHeaderOnly(pool: Pool, bodies: BodyReader, s: seq<byte>, c: Cursor,
                                       nameIndex: nat, rawLength: nat)
    requires HeaderAt(s, c.pos, nameIndex, rawLength)
    requires !IsUtf8At(pool, nameIndex)
    ensures AllocAttr(pool, bodies, s, c) == Parsed(None, Cursor(c.pos + 6, c.log + [BadNameIndex(nameIndex)]))
  {
    HeaderRead(s, c, nameIndex, rawLength);
  }

  /**
    An unrecognised name is skipped by its declared length and yields null;
    the next attribute starts right after it. A length that the Java `int`
    holds as negative skips nothing.
   */
  lemma UnknownTagSkipsLength(pool: Pool, bodies: BodyReader, s: seq<byte>, c: Cursor,
                              nameIndex: nat, rawLength: nat, name: string)
    requires HeaderAt(s, c.pos, nameIndex, rawLength)
    requires Lookup(pool, nameIndex) == Some(Utf8(name)) && !IsKnownTag(name)
    ensures var r := AllocAttr(pool, bodies, s, c);
            var skipped := if rawLength < INT32_LIMIT then rawLength else 0;
            && (r.Parsed? <==> c.pos + 6 + skipped <= |s|)
            && (r.Parsed? ==> r == Parsed(None, Cursor(c.pos + 6 + skipped, c.log)))
  {
    HeaderRead(s, c, nameIndex, rawLength);
  }

  /** InnerClasses is recognised, yields null and leaves its body unread. */
  lemma InnerClassesConsumesNoBody(pool: Pool, bodies: BodyReader, s: seq<byte>, c: Cursor,
                                   nameIndex: nat, rawLength: nat)
    requires HeaderAt(s, c.pos, nameIndex, rawLength)
    requires Lookup(pool, nameIndex) == Some(Utf8(InnerClassesTag))
    ensures AllocAttr(pool, bodies, s, c) == Parsed(None, Cursor(c.pos + 6, c.log))
  {
    HeaderRead(s, c, nameIndex, rawLength);
  }

  /** Synthetic and Deprecated keep the declared length but read no body, whatever the length says. */
  lemma MarkerAttributesIgnoreLength(pool: Pool, bodies: BodyReader, s: seq<byte>, c: Cursor,
                                     nameIndex: nat, rawLength: nat, name: string)
    requires HeaderAt(s, c.pos, nameIndex, rawLength)
    requires Lookup(pool, nameIndex) == Some(Utf8(name)) && (name == SyntheticTag || name == DeprecatedTag)
    ensures AllocAttr(pool, bodies, s, c)
            == Parsed(Some(Attribute(name, ToInt32(rawLength), if name == SyntheticTag then Synthetic else Deprecated)),
                      Cursor(c.pos + 6, c.log))
  {
    HeaderRead(s, c, nameIndex, rawLength);
  }

  /**
    Dispatch is exact string comparison: an object is built exactly for the
    eight constructed tags, of the variant that tag names, carrying the
    resolved name and the declared length.
   */
  lemma DispatchIsExact(pool: Pool, bodies: BodyReader, s: seq<byte>, c: Cursor,
                        nameIndex: nat, rawLength: nat, name: string)
    requires HeaderAt(s, c.pos, nameIndex, rawLength)
    requires Lookup(pool, nameIndex) == Some(Utf8(name))
    ensures var r := AllocAttr(pool, bodies, s, c);
            r.Parsed? ==>
              && (r.value.Some? <==> IsConstructedTag(name))
              && (r.value.Some? ==>
                    r.value.value.name == name && r.value.value.length == ToInt32(rawLength)
                    && BodyFitsTag(name, r.value.value.body))
  {
    HeaderRead(s, c, nameIndex, rawLength);
  }

  /** A Code attribute is exactly what the Code decoder reads right after the header. */
  lemma CodeAttributeIsDecodeCode(pool: Pool, bodies: BodyReader, s: seq<byte>, c: Cursor,
                                  nameIndex: nat, rawLength: nat)
    requires HeaderAt(s, c.pos, nameIndex, rawLength)
    requires Lookup(pool, nameIndex) == Some(Utf8(CodeTag))
    ensures var r := AllocAttr(pool, bodies, s, c);
            var d := DecodeCode(CodeTag, ToInt32(rawLength), pool, bodies, s, Cursor(c.pos + 6, c.log));
            && (r.Parsed? <==> d.Parsed?)
            && (r.Parsed? ==> r == Parsed(Some(d.value), d.next))
  {
    HeaderRead(s, c, nameIndex, rawLength);
  }

  /**
    A LineNumberTable attribute holds the table decoded right after its
    header, and consumes the header, the u2 count and four bytes per entry.
   */
  lemma LineNumberTableConsumption(pool: Pool, bodies: BodyReader, s: seq<byte>, c: Cursor,
                                   nameIndex: nat, rawLength: nat)
    requires HeaderAt(s, c.pos, nameIndex, rawLength)
    requires Lookup(pool, nameIndex) == Some(Utf8(LineNumberTableTag))
    ensures var r := AllocAttr(pool, bodies, s, c);
            r.Parsed? ==>
              && c.pos + 8 <= |s|
              && r.next == Cursor(c.pos + 8 + 4 * U2At(s, c.pos + 6), c.log)
              && r.value.Some? && r.value.value.body.LineNumberTable?
              && DecodeLineNumberTable(s, Cursor(c.pos + 6, c.log)) == Parsed(r.value.value.body.table, r.next)
  {
    HeaderRead(s, c, nameIndex, rawLength);
  }

  /**
    An unknown attribute in a list does not shift its siblings: the rest of
    the list is decoded from the byte after its body.
   */
  lemma UnknownKeepsSiblingsAligned(pool: Pool, bodies: BodyReader, s: seq<byte>, c: Cursor, n: nat,
                                    nameIndex: nat, rawLength: nat, name: string)
    requires HeaderAt(s, c.pos, nameIndex, rawLength) && rawLength < INT32_LIMIT
    requires Lookup(pool, nameIndex) == Some(Utf8(name)) && !IsKnownTag(name)
    requires c.pos + 6 + rawLength <= |s|
    ensures var whole := DecodeAttrList(n + 1, pool, bodies, s, c);
            var rest := DecodeAttrList(n, pool, bodies, s, Cursor(c.pos + 6 + rawLength, c.log));
            && (whole.Parsed? <==> rest.Parsed?)
            && (whole.Parsed? ==> whole.value == [None] + rest.value && whole.next == rest.next)
  {
    UnknownTagSkipsLength(pool, bodies, s, c, nameIndex, rawLength, name);
  }

  /**
    The consequence of InnerClasses not skipping its body: the next slot of
    the list is decoded from the first byte of that body.
   */
  lemma InnerClassesBodyReadAsNextAttribute(pool: Pool, bodies: BodyReader, s: seq<byte>, c: Cursor, n: nat,
                                            nameIndex: nat, rawLength: nat)
    requires HeaderAt(s, c.pos, nameIndex, rawLength)
    requires Lookup(pool, nameIndex) == Some(Utf8(InnerClassesTag))
    ensures var whole := DecodeAttrList(n + 1, pool, bodies, s, c);
            var rest := DecodeAttrList(n, pool, bodies, s, Cursor(c.pos + 6, c.log));
            && (whole.Parsed? <==> rest.Parsed?)
            && (whole.Parsed? ==> whole.value == [None] + rest.value && whole.next == rest.next)
  {
    InnerClassesConsumesNoBody(pool, bodies, s, c, nameIndex, rawLength);
  }
}
