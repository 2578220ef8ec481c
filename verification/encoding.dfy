/**
  Writing attributes back to bytes, as a compiler lays them out. It exists
  to state what decoding preserves: decoding the bytes of a well-formed
  attribute gives the attribute back (see `RoundTrip`).
 */
module AttrEncoding {
  import opened Optional
  import opened Stream
  import opened ConstPool
  import opened LineNumbers
  import opened CodeExceptions
  import opened Attributes

  /**
    An attribute this encoder can write and the decoder reads back: its name
    has a UTF-8 constant in `names`, every count fits its field, nested
    slots are non-null, empty parts are null, and the body is one whose
    layout the model knows (not one of the opaque kinds).
   */
  predicate WellFormed(pool: Pool, names: map<string, nat>, a: Attribute)
    decreases a
  {
    && a.name in names && names[a.name] < U2_LIMIT
    && Lookup(pool, names[a.name]) == Some(Utf8(a.name))
    && IsInt32(a.length)
    && BodyFitsTag(a.name, a.body)
    && WellFormedBody(pool, names, a.body)
  }

  predicate WellFormedBody(pool: Pool, names: map<string, nat>, b: Body)
    decreases b
  {
    match b
    case Code(maxStack, maxLocals, code, table, attrs) =>
      && maxStack < U2_LIMIT && maxLocals < U2_LIMIT
      && (code.Some? ==> 0 < |code.value| < INT32_LIMIT)
      && (table.Some? ==>
            && 0 < |table.value| < U2_LIMIT
            && forall i :: 0 <= i < |table.value| ==> WellFormedCodeException(pool, table.value[i]))
      && WellFormedArray(pool, names, attrs)
    case LineNumberTable(table) =>
      table.Some? ==>
        && 0 < |table.value| < U2_LIMIT
        && forall i :: 0 <= i < |table.value| ==> ValidLineNumber(table.value[i])
    case Synthetic => true
    case Deprecated => true
    case _ => false
  }

  /** A nested array this encoder can write: null, or a non-empty array of well-formed, non-null slots. */
  predicate WellFormedArray(pool: Pool, names: map<string, nat>, attrs: AttributeArray)
    decreases attrs
  {
    attrs.Slots? ==>
      && 0 < |attrs.slots| < U2_LIMIT
      && forall i :: 0 <= i < |attrs.slots| ==> attrs.slots[i].Some? && WellFormed(pool, names, attrs.slots[i].value)
  }

  function Encode(pool: Pool, names: map<string, nat>, a: Attribute): (e: seq<byte>)
    requires WellFormed(pool, names, a)
    ensures |e| >= 6
    decreases a
  {
    U2Bytes(names[a.name]) + U4Bytes(FromInt32(a.length)) + EncodeBody(pool, names, a.body)
  }

  function CodeBufferBytes(code: Option<seq<byte>>): (e: seq<byte>)
    requires code.Some? ==> 0 < |code.value| < INT32_LIMIT
  {
    if code.Some? then U4Bytes(|code.value|) + code.value else U4Bytes(0)
  }

  function EncodeBody(pool: Pool, names: map<string, nat>, b: Body): (e: seq<byte>)
    requires WellFormedBody(pool, names, b)
    decreases b
  {
    match b
    case Code(maxStack, maxLocals, code, table, attrs) =>
      U2Bytes(maxStack) + U2Bytes(maxLocals) + CodeBufferBytes(code) + ExceptionTableBytes(pool, table)
      + NestedBytes(pool, names, attrs)
    case LineNumberTable(table) =>
      LineNumberTableBytes(if table.Some? then table.value else [])
    case Synthetic => []
    case Deprecated => []
  }

  /** The nested attribute array as written: a u2 count and the attributes; a null array is a zero count. */
  function NestedBytes(pool: Pool, names: map<string, nat>, attrs: AttributeArray): (e: seq<byte>)
    requires WellFormedArray(pool, names, attrs)
    decreases attrs, 1
  {
    if attrs.Slots? then U2Bytes(|attrs.slots|) + EncodeSlots(pool, names, attrs, 0) else U2Bytes(0)
  }

  /** The attributes in slots `i..` written back to back. */
  function EncodeSlots(pool: Pool, names: map<string, nat>, attrs: AttributeArray, i: nat): (e: seq<byte>)
    requires attrs.Slots? && i <= |attrs.slots|
    requires forall j :: 0 <= j < |attrs.slots| ==> attrs.slots[j].Some? && WellFormed(pool, names, attrs.slots[j].value)
    ensures |e| >= 6 * (|attrs.slots| - i)
    decreases attrs, 0, |attrs.slots| - i
  {
    if i == |attrs.slots| then [] else Encode(pool, names, attrs.slots[i].value) + EncodeSlots(pool, names, attrs, i + 1)
  }
}
