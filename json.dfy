/** The value tree the JSON parser yields. The parser itself is a foreign
    library; the model receives its result, never runs it. */
module JsonValue {

  /** A parsed JSON value. Numbers carry their mathematical value, whatever
      internal kind (signed, unsigned or floating point) the parser gave them.
      An object is a map from keys to values, after the parser has settled
      duplicate keys. */
  datatype Json =
    | Null
    | Bool(b: bool)
    | Number(value: real)
    | String(s: string)
    | Array(items: seq<Json>)
    | Object(members: map<string, Json>)
}
