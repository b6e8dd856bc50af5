/**
 * The record dictionaries that the formatter produces and the upsert validation
 * consumes: `{'_id': ..., 'text': ..., 'assistant': ...}`.
 */
module Records {

  /** What a record dictionary holds under one key: nothing (the key is missing),
      a string, or some other Python value, of which only its truthiness matters. */
  datatype Value = Absent | Str(s: string) | NonStr(truthy: bool)

  /** Python truthiness of the value `record.get(key)` returns. */
  predicate Truthy(v: Value) {
    match v
    case Absent => false
    case Str(s) => |s| > 0
    case NonStr(b) => b
  }

  datatype Record = Record(id: Value, text: Value, assistant: Value)
}
