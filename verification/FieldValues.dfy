/** What fields of COPY rows and of binary formats hold, and what element encoders give for them. */
module FieldValues {
  import opened Bytes

  datatype Column = Null | Data(bytes: seq<byte>)

  /**
   What an encoder's first pass answers: a finished string, or the space that a second pass needs, with the
   intermediate value that the second pass is to be given.
   */
  datatype FirstPass<+H> = OnePass(text: seq<byte>) | Needs(size: nat, held: H)

  /**
   An element by what both of its passes give: nil, a finished string, or the text that a second pass writes into
   the `size` bytes the first one asked for.
   */
  datatype Element = NilElement | Finished(text: seq<byte>) | TwoPass(text: seq<byte>, size: nat)
  {
    predicate Valid() {
      (Finished? ==> |text| <= INT32_MAX) && (TwoPass? ==> |text| <= size <= INT32_MAX)
    }

    /** Both passes agree on the length. */
    predicate Exact() { TwoPass? ==> |text| == size }

    function Column(): Column { if NilElement? then Null else Data(text) }
  }

  function ColumnsOf(elements: seq<Element>): (columns: seq<Column>)
    ensures |columns| == |elements|
  {
    if |elements| == 0 then [] else [elements[0].Column()] + ColumnsOf(elements[1..])
  }

  lemma {:induction false} ColumnsOfAt(elements: seq<Element>, i: nat)
    requires i < |elements|
    ensures ColumnsOf(elements)[i] == elements[i].Column()
  {
    if i > 0 {
      ColumnsOfAt(elements[1..], i - 1);
    }
  }
}
