/**
 Stored values, rows and row ids. Floats are kept as their bits, which is how the engine tests them
 for equality.
 */
module Values {
  import opened Bytes

  datatype Value =
    | Empty
    | Int(v: int)
    | Float(bits: nat)
    | Bool(b: bool)
    | Str(text: bytes)
    | DateTime(micros: int)
    | Uuid(id: bytes)
    | Blob(data: bytes)
    | Json(doc: bytes)

  type Row = seq<Value>

  datatype RowId = RowId(page: nat, slot: nat)

  predicate RidLe(a: RowId, b: RowId) {
    a.page < b.page || (a.page == b.page && a.slot <= b.slot)
  }
}
