/**
 * The format stage (class WGDataManager). Only dataType 1 (JSON) is
 * supported, and only an array or a dictionary can be written. The JSON
 * encoder and parser themselves are platform code whose behaviour is not
 * visible here, so they are supplied as a pair of functions.
 */
module DataManager {
  import opened Wrappers

  /** dataType 1: JSON. */
  const JsonDataType: bv8 := 1

  /** A structured value handed to or received from the manager. */
  datatype Value =
    | ArrayValue(items: seq<Value>)
    | DictionaryValue(entries: map<string, Value>)
    | ScalarValue(text: string)
  {
    /** Only arrays and dictionaries may be the top-level value of a message. */
    predicate IsContainer() {
      ArrayValue? || DictionaryValue?
    }
  }

  /**
   * The platform's JSON serialisation: `encode` returns None where it
   * throws (the source's `try?`), `decode` returns None where parsing fails.
   */
  datatype Json = Json(encode: Value -> Option<seq<bv8>>, decode: seq<bv8> -> Option<Value>)

  /** `write(data:dataType:)`: JSON-encodes an array or dictionary when dataType is 1. */
  function Write(json: Json, data: Value, dataType: bv8): (r: Option<seq<bv8>>)
    ensures r.Some? <==> dataType == JsonDataType && data.IsContainer() && json.encode(data).Some?
    ensures r.Some? ==> r == json.encode(data)
  {
    if dataType == JsonDataType && data.IsContainer() then json.encode(data) else None
  }

  /** `read(data:dataType:)`: parses JSON when dataType is 1 and yields nothing otherwise. */
  function Read(json: Json, data: seq<bv8>, dataType: bv8): (r: Option<Value>)
    ensures dataType != JsonDataType ==> r.None?
    ensures dataType == JsonDataType ==> r == json.decode(data)
  {
    if dataType == JsonDataType then json.decode(data) else None
  }
}
