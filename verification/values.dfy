/** Field values and documents as the in-memory collection stores them.

    A person document is a dictionary from field name to value. The schema
    layer that produces and validates these dictionaries is outside this
    model, so a document is treated as an opaque field map. */
module Values {

  /** The values a document field can hold. Timestamps are kept abstract as
      an integer instant; identifiers are usually `Text`; `Null` is Python's
      `None`. Two different values are never equal as Python dictionary
      keys (a string, an integer, a datetime and `None` never compare
      equal), so Dafny's equality on `Value` is Python's key equality. */
  datatype Value =
    | Text(s: string)
    | Number(n: int)
    | Stamp(t: int)
    | Null

  /** A document: field name to value. */
  type Record = map<string, Value>

  /** Field holding a document's identifier; it is also the lookup key. */
  const IdField: string := "_id"

  /** Timestamp fields stamped by the repository on its write paths. */
  const CreatedField: string := "created"
  const UpdatedField: string := "updated"

  /** Update operator under which a partial update carries its fields. */
  const SetOperator: string := "$set"

  /** Python truthiness of a dictionary: only the empty one is false. */
  predicate Truthy(doc: Record) {
    |doc| != 0
  }

  /** The filter `{"_id": id}` the repository passes to the collection. */
  function IdFilter(id: Value): (f: Record)
    ensures IdField in f && f[IdField] == id
  {
    map[IdField := id]
  }
}
