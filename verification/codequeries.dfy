/** Queries on a decoded Code attribute. */
module CodeQueries {
  import opened Optional
  import opened Stream
  import opened Attributes

  /** Slot `i` holds the first LocalVariableTable of the list. */
  ghost predicate FirstLocalVariableTableAt(attrs: seq<Option<Attribute>>, i: int) {
    && 0 <= i < |attrs|
    && IsLocalVariableTable(attrs[i])
    && forall j :: 0 <= j < i ==> !IsLocalVariableTable(attrs[j])
  }

  /**
    `getLocalVarVec`: the table of the first LocalVariableTable among the
    nested attributes (here, the bytes its sub-parser consumed), or null
    when there is none or the list itself is null. Null slots never match.
   */
  method GetLocalVarVec(b: Body) returns (varVec: Option<seq<byte>>)
    requires b.Code?
    ensures b.attributes.NullArray? ==> varVec.None?
    ensures b.attributes.Slots? ==>
              (varVec.None? <==> forall i :: 0 <= i < |b.attributes.slots| ==> !IsLocalVariableTable(b.attributes.slots[i]))
    ensures varVec.Some? ==>
              b.attributes.Slots?
              && exists i :: FirstLocalVariableTableAt(b.attributes.slots, i)
                             && b.attributes.slots[i].value.body.raw == varVec.value
  {
    varVec := None;
    if b.attributes.Slots? {
      var attrs := b.attributes.slots;
      var i := 0;
      while i < |attrs|
        invariant 0 <= i <= |attrs|
        invariant forall j :: 0 <= j < i ==> !IsLocalVariableTable(attrs[j])
      {
        if IsLocalVariableTable(attrs[i]) {
          varVec := Some(attrs[i].value.body.raw);
          assert FirstLocalVariableTableAt(attrs, i);
          return;
        }
        i := i + 1;
      }
    }
  }
}
