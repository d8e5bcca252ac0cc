/** The public value type of the library (`json::value`) and the optional
    results used where the C++ has a null pointer or stops the program. */
module Json {
  import opened OrderedMap

  datatype Option<T> = None | Some(value: T)

  /** A JSON value. The C++ record carries a `type` string next to one field
      per kind; here the kind is the constructor. A number keeps the text it
      was read from (the C++ converts it to a `double`). */
  datatype Value =
    | Boolean(b: bool)
    | Number(text: string)
    | String(str: string)
    | Array(items: seq<Value>)
    | Object(fields: Hash<Value>)
}
