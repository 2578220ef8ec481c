/**
  Decoded attribute records (section 4.7 of the Java Virtual Machine
  Specification, Java SE 8 edition) and the closed set of tags the
  attribute factory recognises.
 */
module Attributes {
  import opened Optional
  import opened Stream
  import opened ConstPool
  import opened LineNumbers
  import opened CodeExceptions

  /** Every attribute keeps its resolved name and its declared length (a Java `int`). */
  datatype Attribute = Attribute(name: string, length: int, body: Body)

  /**
    The variants. SourceFile, ConstantValue, Exceptions and LocalVariableTable
    are decoded by sub-parsers outside this model; each keeps the bytes its
    sub-parser consumed. `Code` holds null (`None`, `NullArray`) for an
    empty code buffer, an empty exception table and an empty attribute list.
   */
  datatype Body =
    | SourceFile(raw: seq<byte>)
    | ConstantValue(raw: seq<byte>)
    | Code(maxStack: nat, maxLocals: nat, code: Option<seq<byte>>,
           exceptionTable: Option<seq<CodeException>>,
           attributes: AttributeArray)
    | Exceptions(raw: seq<byte>)
    | LineNumberTable(table: Option<seq<LineNumber>>)
    | LocalVariableTable(raw: seq<byte>)
    | Synthetic
    | Deprecated

  /** The nested attribute array of a Code body: null, or one nullable slot per attribute. */
  datatype AttributeArray = NullArray | Slots(slots: seq<Option<Attribute>>)

  const SourceFileTag: string := "SourceFile"
  const ConstantValueTag: string := "ConstantValue"
  const CodeTag: string := "Code"
  const ExceptionsTag: string := "Exceptions"
  const InnerClassesTag: string := "InnerClasses"
  const LineNumberTableTag: string := "LineNumberTable"
  const LocalVariableTableTag: string := "LocalVariableTable"
  const SyntheticTag: string := "Synthetic"
  const DeprecatedTag: string := "Deprecated"

  /** Tags for which the factory builds an attribute object. */
  predicate IsConstructedTag(t: string) {
    || t == SourceFileTag || t == ConstantValueTag || t == CodeTag || t == ExceptionsTag
    || t == LineNumberTableTag || t == LocalVariableTableTag || t == SyntheticTag || t == DeprecatedTag
  }

  /** Tags the factory recognises; every other name is skipped by length. */
  predicate IsKnownTag(t: string) {
    IsConstructedTag(t) || t == InnerClassesTag
  }

  /** The variant built for each constructed tag. */
  predicate BodyFitsTag(t: string, b: Body) {
    match b
    case SourceFile(_) => t == SourceFileTag
    case ConstantValue(_) => t == ConstantValueTag
    case Code(_, _, _, _, _) => t == CodeTag
    case Exceptions(_) => t == ExceptionsTag
    case LineNumberTable(_) => t == LineNumberTableTag
    case LocalVariableTable(_) => t == LocalVariableTableTag
    case Synthetic => t == SyntheticTag
    case Deprecated => t == DeprecatedTag
  }

  /** The four attribute bodies whose layout is decoded outside this model. */
  datatype OpaqueKind = SourceFileKind | ConstantValueKind | ExceptionsKind | LocalVariableTableKind

  /**
    A sub-parser for the opaque bodies: given the kind, the declared length,
    the pool and the unread bytes, it reports how many bytes it consumed, or
    `None` when the stream ends first.
   */
  ghost predicate ConsumesWithin(f: (OpaqueKind, int, Pool, seq<byte>) -> Option<nat>) {
    forall k, len, pool, rest :: f(k, len, pool, rest).Some? ==> f(k, len, pool, rest).value <= |rest|
  }

  type BodyReader = f: (OpaqueKind, int, Pool, seq<byte>) -> Option<nat> | ConsumesWithin(f)
    witness (k: OpaqueKind, len: int, pool: Pool, rest: seq<byte>) => None

  /** The attribute name whose body each opaque kind decodes. */
  function KindTag(kind: OpaqueKind): string {
    match kind
    case SourceFileKind => SourceFileTag
    case ConstantValueKind => ConstantValueTag
    case ExceptionsKind => ExceptionsTag
    case LocalVariableTableKind => LocalVariableTableTag
  }

  predicate IsOpaque(b: Body) {
    b.SourceFile? || b.ConstantValue? || b.Exceptions? || b.LocalVariableTable?
  }

  function OpaqueBody(kind: OpaqueKind, raw: seq<byte>): (b: Body)
    ensures IsOpaque(b) && b.raw == raw && BodyFitsTag(KindTag(kind), b)
  {
    match kind
    case SourceFileKind => SourceFile(raw)
    case ConstantValueKind => ConstantValue(raw)
    case ExceptionsKind => Exceptions(raw)
    case LocalVariableTableKind => LocalVariableTable(raw)
  }

  predicate IsLocalVariableTable(a: Option<Attribute>) {
    a.Some? && a.value.body.LocalVariableTable?
  }
}
