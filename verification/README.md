# Attribute decoding of the javad class-file reader, in Dafny

This project models the attribute layer of the `javad` class-file decoder
(package `javad.attr`): the part that turns the bytes of a class file into
typed attribute records, following section 4.7 of the Java Virtual Machine
Specification (Java SE 8 edition) for the generic `u2 attribute_name_index,
u4 attribute_length` header and the rule that unknown attributes are
skipped, section 4.7.3 for `Code` and section 4.7.12 for `LineNumberTable`.

It has three parts:

- **Attribute dispatch** (`attrFactory.allocAttr`, `skip_data`):
  - reads the six-byte header;
  - resolves the name index to a UTF-8 constant;
  - compares the name exactly against the nine recognised tags;
  - builds the matching variant, or skips an unknown attribute by its declared length.
- **The Code attribute** (`Code` and its inner `CodeException`):
  - `max_stack`, `max_locals`, the code bytes copied verbatim, an exception
    table of eight-byte entries, and a nested attribute list;
  - the nested list re-enters the dispatch, so `AllocAttr` and `DecodeCode`
    are mutually recursive;
  - the recursion terminates on the number of unread bytes, because every
    attribute consumes at least its header.
- **LineNumberTable**: a `u2` count and that many `(start_pc, line_number)` pairs.

Decoding is modelled functionally. Each parser is a pure function over a
byte string `seq<byte>` and a `Cursor`. The cursor holds the offset of the
next unread byte and the diagnostics reported so far. Each parser returns
`Parsed(value, next)` or `Truncated(at)`.

Modules, one per concern:

- `Optional` (optional.dfy) — `Option`, the model of a Java reference that may be null.
- `Stream` (stream.dfy) — big-endian `u1`/`u2`/`u4` reads, their encoders, and the Java `int` view of a `u4`.
- `ConstPool` (constpool.dfy) — the constant pool as an index-to-kind map.
- `LineNumbers` (linenumbers.dfy) — the LineNumberTable body.
- `CodeExceptions` (codeexceptions.dfy) — exception-table entries.
- `Attributes` (attributes.dfy) — the attribute records and the tag set.
- `AttrFactory` and `CodeLayout` (attrfactory.dfy) — dispatch, skipping, the Code body, and where each Code field is read from.
- `DispatchFacts` (dispatchfacts.dfy) — what dispatch does for each kind of name.
- `CodeQueries` (codequeries.dfy) — `getLocalVarVec`.
- `AttrEncoding` and `RoundTrip` (encoding.dfy, roundtrip.dfy) — an encoder for well-formed attributes, and the proof that decoding inverts it.

Modelling decisions:

- **Errors that do not stop decoding.** `ErrorMessage.errorPrint` is modelled
  as appending a `Diagnostic` to the cursor's log. Decoding then carries on,
  as the Java code does: the bad attribute becomes null, or the bad
  `catch_type` stays null.
- **End of stream.** The primitive reads (`dataRead`) are not part of this
  model. Running out of bytes is assumed to stop decoding, modelled as
  `Truncated`.
- **Signed lengths.** `readU4` is assigned to Java `int` variables
  (`length`, `codeLen`). The model therefore reads an unsigned 32-bit value
  and converts it to a two's-complement `int` (`ToInt32`). As a result, a
  length of 2^31 or more is negative in Java. `skip_data` then skips nothing
  (its loop does not run), and `codeLen > 0` fails, so no code buffer is
  built. The model reproduces both.
- **Null.** Java `null` is `None`, and `NullArray` for the nested attribute
  array. It is a separate datatype so that Dafny can see the recursion
  through it is well founded. A zero count gives null, never an empty array.
- **The constant pool** is a `map<nat, Entry>` with no entry at index 0,
  where `Entry` is one of `Utf8(text)`, `ClassOrString(nameIndex)` or
  `Other`. A missing key is a null `constPoolElem` result.
- **Opaque bodies.** The layouts of SourceFile, ConstantValue, Exceptions
  and LocalVariableTable are not part of this model. Their constructors are
  a `BodyReader` parameter: a function that reports how many of the unread
  bytes it consumed, never more than remain. The variant keeps those bytes.
- **The model follows the code as written, including where it departs from the Java Virtual Machine Specification:**
  - A name index that is not UTF-8 is reported and yields null; decoding is not aborted.
  - `InnerClasses` is recognised but builds nothing and does not skip its
    body. `InnerClassesBodyReadAsNextAttribute` shows the effect: the next
    slot of a list is decoded from the first byte of the unskipped body.
  - `Synthetic` and `Deprecated` read no body whatever their declared length says.
  - `catch_type` accepts any class-or-string constant, not only class references.
  - No attribute's declared length is checked against the bytes its body consumed.

## Model

| member | source | states |
|---|---|---|
| Stream.ReadU1 | src/main/java/javad/attr/attrFactory.java:51 | a one-byte read succeeds exactly when a byte remains, yields a value below 256 and advances by one |
| Stream.ReadU2 | src/main/java/javad/attr/attrFactory.java:71 | a `u2` read succeeds exactly when two bytes remain, yields their big-endian value (below 65536) and advances by two |
| Stream.ReadU4 | src/main/java/javad/attr/attrFactory.java:72 | a `u4` read succeeds exactly when four bytes remain, yields their big-endian value (below 2^32) and advances by four |
| Stream.ReadBytes | src/main/java/javad/attr/Code.java:162-164 | reading `n` bytes succeeds exactly when `n` bytes remain, advances by `n`, and returns the `n` bytes found at the cursor |
| Stream.ReadU1s | src/main/java/javad/attr/Code.java:162-164 | the `for` loop of `n` one-byte `readU1` calls, on success, advances by exactly `n` and yields `n` bytes |
| Stream.ReadU1sIsReadBytes | src/main/java/javad/attr/attrFactory.java:50-52 | the loop of `n` `readU1` calls (as in `skip_data` and the code copy) succeeds exactly when the block read of `n` bytes does, with the same bytes in stream order, the same cursor and the same truncation point |
| Stream.U2AtIsBigEndian | src/main/java/javad/attr/attrFactory.java:71 | the value a `u2` read yields is the big-endian reading (most significant byte first) of its two bytes |
| Stream.U4AtIsBigEndian | src/main/java/javad/attr/attrFactory.java:72 | the value a `u4` read yields is the big-endian reading of its four bytes |
| Stream.U2BytesIsBigEndian | src/main/java/javad/attr/attrFactory.java:71 | the 16-bit encoder writes the big-endian representation of its value |
| Stream.U4BytesIsBigEndian | src/main/java/javad/attr/attrFactory.java:72 | the 32-bit encoder writes the big-endian representation of its value |
| Stream.ReadU2Encoded | src/main/java/javad/attr/attrFactory.java:71 | reading back the big-endian encoding of a 16-bit value gives that value |
| Stream.ReadU4Encoded | src/main/java/javad/attr/attrFactory.java:72 | reading back the big-endian encoding of a 32-bit value gives that value |
| Stream.U2BytesOfRead | src/main/java/javad/attr/attrFactory.java:71 | re-encoding a `u2` read reproduces the two bytes it came from, so the read loses nothing |
| Stream.U4BytesOfRead | src/main/java/javad/attr/attrFactory.java:72 | re-encoding a `u4` read reproduces the four bytes it came from |
| Stream.ToInt32 | src/main/java/javad/attr/attrFactory.java:72 | the Java `int` holding a `u4` is congruent to it modulo 2^32, lies in the 32-bit range, and is negative exactly when the value is at least 2^31 |
| Stream.FromInt32 | src/main/java/javad/attr/Code.java:151 | every Java `int` is the `int` view of exactly one `u4`, which `ToInt32` maps back to it |
| ConstPool.Lookup | src/main/java/javad/attr/attrFactory.java:74 | the nullable pool lookup yields an entry exactly for populated indices, and it is the entry at that index |
| LineNumbers.DecodeLineNumber | src/main/java/javad/attr/LineNumberTable.java:82-85 | an entry reads `start_pc` then `line_number`, four bytes in all, each an unsigned 16-bit value |
| LineNumbers.DecodeLineNumbers | src/main/java/javad/attr/LineNumberTable.java:105-107 | `n` entries consume exactly `4n` bytes and entry `i` is the pair at offset `4i` |
| LineNumbers.DecodeLineNumberTable | src/main/java/javad/attr/LineNumberTable.java:98-109 | the table consumes `2 + 4n` bytes for count `n`, is null exactly when `n` is 0, and otherwise holds `n` entries in stream order |
| LineNumbers.DecodeLineNumbersEncoded | src/main/java/javad/attr/LineNumberTable.java:105-107 | encoded pairs decode back to the same pairs in the same order |
| LineNumbers.DecodeLineNumberTableEncoded | src/main/java/javad/attr/LineNumberTable.java:98-109 | an encoded table decodes back to its entries (null when empty) after exactly `2 + 4n` bytes |
| CodeExceptions.DecodeCodeException | src/main/java/javad/attr/Code.java:118-132 | an entry consumes 8 bytes; catch index 0 is never resolved; a non-zero index becomes the catch type only if it names a class/string constant, and otherwise exactly one diagnostic is logged and the catch type stays null |
| CodeExceptions.DecodeCodeExceptions | src/main/java/javad/attr/Code.java:172-174 | `n` entries consume exactly `8n` bytes and entry `i` is the one at offset `8i`, resolved against the pool |
| CodeExceptions.DecodeExceptionTable | src/main/java/javad/attr/Code.java:167-175 | the table holds exactly `exceptLen` entries, is null exactly when the count is 0, and consumes `2 + 8·exceptLen` bytes |
| CodeExceptions.DecodeCodeExceptionEncoded | src/main/java/javad/attr/Code.java:118-132 | a well-formed entry decodes back unchanged, with no diagnostic |
| CodeExceptions.DecodeCodeExceptionsEncoded | src/main/java/javad/attr/Code.java:172-174 | encoded entries decode back to the same entries in order |
| CodeExceptions.DecodeExceptionTableEncoded | src/main/java/javad/attr/Code.java:167-175 | an encoded exception table decodes back unchanged, null staying null |
| AttrFactory.SkipData | src/main/java/javad/attr/attrFactory.java:47-53 | skipping consumes exactly `len` bytes when `len` is positive and none otherwise, and fails only when too few bytes remain |
| AttrFactory.AllocAttr | src/main/java/javad/attr/attrFactory.java:63-107 | every successful call consumes at least the 6 header bytes and stays within the input; fewer than 6 bytes is a failure; a built attribute carries the UTF-8 name at the header's index, the header's length as a Java `int`, a constructed tag and the variant for that tag |
| AttrFactory.Dispatch | src/main/java/javad/attr/attrFactory.java:81-101 | an object is built exactly for the eight constructed tags, with the given name and length and the matching variant; InnerClasses, Synthetic and Deprecated consume nothing; any other name skips `length` bytes |
| AttrFactory.DecodeOpaque | src/main/java/javad/attr/attrFactory.java:81-93 | an opaque body succeeds exactly when its sub-parser does, ends exactly as many bytes further as the sub-parser consumed, and yields the variant for its tag with the name, the length and exactly those bytes |
| AttrFactory.DecodeCodeBytes | src/main/java/javad/attr/Code.java:151-165 | the code buffer is null exactly when `code_length` (as a Java `int`) is not positive, and otherwise is exactly the next `code_length` bytes, copied verbatim |
| AttrFactory.DecodeCode | src/main/java/javad/attr/Code.java:145-186 | a Code body consumes at least 12 bytes (the five fixed-size fields), carries the given name and length, and its `max_stack`/`max_locals` (the getters' values) are the first two `u2` fields |
| AttrFactory.DecodeNestedAttributes | src/main/java/javad/attr/Code.java:177-185 | the nested array is null exactly when the count is 0, and otherwise has exactly `attrCount` slots, each taking at least 6 bytes |
| AttrFactory.DecodeAttrList | src/main/java/javad/attr/Code.java:182-184 | `n` calls of `allocAttr` yield `n` slots and consume at least `6n` bytes |
| AttrFactory.AttrListSlotsFitTags | src/main/java/javad/attr/Code.java:182-184 | every non-null slot of a decoded list is a constructed tag holding the variant for that tag |
| CodeLayout.CodeBufferLayout | src/main/java/javad/attr/Code.java:149-165 | max_stack is read at offset 0, max_locals at 2, code_length at 4, and the code buffer is the bytes from offset 8 |
| CodeLayout.ExceptionTableLayout | src/main/java/javad/attr/Code.java:167-175 | the exception count follows the code bytes, and entry `i` is the eight bytes at `2 + 8i` after it |
| CodeLayout.NestedAttributesLayout | src/main/java/javad/attr/Code.java:177-185 | the attribute count follows the exception table, and the nested array is null exactly when it is 0, otherwise one slot per count |
| DispatchFacts.HeaderRead | src/main/java/javad/attr/attrFactory.java:71-72 | the name index comes from the first two header bytes and the length from the next four, big-endian |
| DispatchFacts.BadNameIndexConsumesHeaderOnly | src/main/java/javad/attr/attrFactory.java:102-104 | a name index that is not a UTF-8 constant yields null, logs exactly one diagnostic and consumes only the 6 header bytes |
| DispatchFacts.UnknownTagSkipsLength | src/main/java/javad/attr/attrFactory.java:98-101 | an unrecognised name yields null and ends exactly `length` bytes after the header, or right after the header when the Java `int` length is negative; it fails exactly when those bytes are missing |
| DispatchFacts.InnerClassesConsumesNoBody | src/main/java/javad/attr/attrFactory.java:89 | InnerClasses yields null and consumes only the header, whatever its length |
| DispatchFacts.MarkerAttributesIgnoreLength | src/main/java/javad/attr/attrFactory.java:94-97 | Synthetic and Deprecated yield their variant carrying the declared length, but consume only the header |
| DispatchFacts.DispatchIsExact | src/main/java/javad/attr/attrFactory.java:81-97 | for a UTF-8 name, an object is built exactly when the name is one of the eight constructed tags, with that name, the declared length and the matching variant |
| DispatchFacts.CodeAttributeIsDecodeCode | src/main/java/javad/attr/attrFactory.java:84-85 | for a UTF-8 name `Code`, `allocAttr` succeeds exactly when the Code constructor does on the bytes after the header, and returns that constructor's attribute and end position |
| DispatchFacts.LineNumberTableConsumption | src/main/java/javad/attr/attrFactory.java:90-91 | a LineNumberTable attribute holds exactly the table decoded right after its header, and consumes the header, the count and four bytes per entry |
| DispatchFacts.UnknownKeepsSiblingsAligned | src/main/java/javad/attr/attrFactory.java:98-101 | an unknown attribute in a list leaves a null slot, and the remaining slots decode exactly as if the list started right after its body |
| DispatchFacts.InnerClassesBodyReadAsNextAttribute | src/main/java/javad/attr/attrFactory.java:89 | after InnerClasses, the next slot is decoded from the first byte of its unskipped body |
| CodeQueries.GetLocalVarVec | src/main/java/javad/attr/Code.java:193-207 | the result is null when the nested array is null or holds no LocalVariableTable; otherwise it is the table of the first LocalVariableTable slot |
| RoundTrip.AllocAttrEncoded | src/main/java/javad/attr/attrFactory.java:63-107 | a well-formed attribute (Code, LineNumberTable, Synthetic, Deprecated, with any nesting) decodes back to itself, consuming exactly its encoded length and logging nothing |
| RoundTrip.DecodeCodeEncoded | src/main/java/javad/attr/Code.java:145-186 | an encoded Code body decodes back to the same max values, code, exception table and nested attributes |
| RoundTrip.DecodeNestedAttributesEncoded | src/main/java/javad/attr/Code.java:177-185 | an encoded nested array decodes back unchanged, null staying null |
| RoundTrip.DecodeCodeBytesEncoded | src/main/java/javad/attr/Code.java:151-165 | an encoded code buffer decodes back unchanged, null staying null |
| RoundTrip.EmptyCodeAttribute | src/main/java/javad/attr/Code.java:145-186 | the 18-byte Code attribute of an empty method body decodes to max values 0, a null code buffer, a null table and a null nested array |

## Left out

- Body layouts of SourceFile, ConstantValue, Exceptions and LocalVariableTable:
  `srcFileAttr`, `constValueAttr`, `exceptAttr` and `localVarTabAttr` are not
  part of this model. They are the `BodyReader` parameter, which reports
  only how many bytes it consumed, never more than remain.
- AttrFactory.DecodeOpaque: states that an opaque body logs nothing. That
  follows from the `BodyReader` signature, not from the source: the four
  sub-parsers take the constant pool and might report through
  `errorPrint`, but their code is not part of this model, so any
  diagnostics they report are not modelled.
- `getLocalVarVec`: its result is the LocalVariableTable's vector. The model
  returns the bytes that attribute's sub-parser consumed, because that
  vector's content is not visible. Those bytes are never null, so in the
  model the result is null exactly when no LocalVariableTable slot exists.
  In the source the first match's own `getLocalVarVec()` (Code.java:199)
  may return null as well.
- The round trip (`RoundTrip.AllocAttrEncoded`) covers only the variants
  whose layout is modelled: Code, LineNumberTable, Synthetic and Deprecated.
  The opaque variants depend on the sub-parser.
- The primitive reads (`dataRead.readU1`, `readUnsignedShort`, `readU4`) are
  not part of this model. They are modelled as big-endian reads. Running
  out of bytes is assumed to be a `Truncated` failure, because their
  behaviour at end of stream is not visible.
- Constant-pool construction (`javad.jconst`) and class-file assembly
  (`javad.classfile`) are not part of this model. The pool is a parameter.
- `ErrorMessage.errorPrint` is not modelled as printing. It is modelled as a
  log of diagnostics carried in the cursor.
- The getters `getMaxStack`, `getMaxLocals`, `getStartPC` and `getLineNumber`
  are the datatypes' field selectors (`maxStack`, `maxLocals`, `startPc`,
  `lineNumber`). What they return is stated on `DecodeCode` and `DecodeLineNumber`.
- The `Attribute` base class (its name and length fields) is not part of
  this model beyond those two fields of `Attribute`.
- `Igor.java`, `jvmDump.java` and `ClassExplorerDialog.java` are left out.
  They are command-line entry, file I/O and Swing presentation.
- CodeExceptions.DecodeCodeExceptions: states only that the log grows by
  appending. The exact diagnostics for each entry are stated per entry, on
  `DecodeCodeException`.
- CodeExceptions.DecodeExceptionTable: states only that the log grows by
  appending, for the same reason.
- AttrFactory.DecodeAttrList: states the number of slots and a lower bound
  on the bytes consumed. What each slot holds is stated by
  `AttrFactory.AttrListSlotsFitTags` and, for encoded input, by
  `RoundTrip.AllocAttrEncoded` through a Code attribute's nested list.
- AttrFactory.DecodeCode: its own contract states only the first two
  fields. Where each later field is read from is stated by the `CodeLayout`
  lemmas.
