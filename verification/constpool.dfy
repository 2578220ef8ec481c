/**
  The constant pool as the attribute layer sees it: a table from index to
  entry kind. Only the distinctions the attribute decoder makes are kept:
  UTF-8 text (attribute names), class/string references (exception catch
  types) and everything else. An index with no entry (zero, out of range,
  or the unused slot after a long/double) is absent from the map.
 */
module ConstPool {
  import opened Optional

  datatype Entry =
    | Utf8(text: string)
    | ClassOrString(nameIndex: nat)
    | Other

  /** Index 0 never names a constant (section 4.4 of the Java Virtual Machine Specification). */
  type Pool = m: map<nat, Entry> | 0 !in m witness map[]

  /** The nullable element lookup: `None` for an index with no entry. */
  function Lookup(pool: Pool, index: nat): (r: Option<Entry>)
    ensures r.Some? <==> index in pool
    ensures r.Some? ==> pool[index] == r.value
  {
    if index in pool then Some(pool[index]) else None
  }

  predicate IsUtf8At(pool: Pool, index: nat) {
    index in pool && pool[index].Utf8?
  }

  predicate IsClassOrStringAt(pool: Pool, index: nat) {
    index in pool && pool[index].ClassOrString?
  }
}
