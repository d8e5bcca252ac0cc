/** Turning a successful parse of the grammar into a value: the functions of
    the C++ `decoder` namespace. They index into the parse result's `data`
    vectors at fixed places; an index the result does not have, or a tag
    `element` does not know (where the C++ calls `abort()`), gives `None`. */
module Decoder {
  import opened MatchResult
  import opened OrderedMap
  import opened Json

  /** `text.substr(1, text.size() - 2)`: drops the first and the last
      character. On an empty text `substr` throws, which is `None` here; on
      a one-character text the count wraps to the largest `size_t` and the
      result is empty. */
  function Unquote(t: string): (r: Option<string>)
  {
    if |t| == 0 then None
    else if |t| == 1 then Some("")
    else Some(t[1..|t| - 1])
  }

  /** `decoder::element`: dispatches on the tag of the chosen branch. */
  function DecodeElement(a: Ast): Option<Value>
    decreases a, 2, 0
  {
    if |a.data| == 0 then None
    else
      var d := a.data[0];
      if d.tag == "boolean" then
        if |d.data| == 0 then None else Some(Boolean(d.data[0].text == "true"))
      else if d.tag == "number" then Some(Number(d.text))
      else if d.tag == "string" then
        match Unquote(d.text)
        case None => None
        case Some(x) => Some(String(x))
      else if d.tag == "array" then DecodeArray(d)
      else if d.tag == "object" then DecodeObject(d)
      else None
  }

  /** `decoder::array`: the elements of the repetition at `data[2]`, each
      the first result of its item. */
  function DecodeArray(d: Ast): Option<Value>
    decreases d, 1, 0
  {
    if |d.data| < 3 then None
    else
      match DecodeItems(d, 0)
      case None => None
      case Some(xs) => Some(Array(xs))
  }

  function DecodeItems(d: Ast, j: nat): Option<seq<Value>>
    requires 3 <= |d.data|
    decreases d, 0, |d.data[2].data| - j
  {
    var items := d.data[2].data;
    if j >= |items| then Some([])
    else
      var e := items[j];
      if |e.data| == 0 then None
      else
        match DecodeElement(e.data[0])
        case None => None
        case Some(v) =>
          match DecodeItems(d, j + 1)
          case None => None
          case Some(rest) => Some([v] + rest)
  }

  /** `decoder::object`: one entry per item of the repetition at `data[2]`,
      in order and without merging repeated keys (the entries are pushed
      onto the vector, not stored with `operator[]`). */
  function DecodeObject(d: Ast): Option<Value>
    decreases d, 1, 0
  {
    if |d.data| < 3 then None
    else
      match DecodeMembers(d, 0)
      case None => None
      case Some(es) => Some(Object(Hash(es)))
  }

  function DecodeMembers(d: Ast, j: nat): Option<seq<Entry<Value>>>
    requires 3 <= |d.data|
    decreases d, 0, |d.data[2].data| - j
  {
    var items := d.data[2].data;
    if j >= |items| then Some([])
    else
      var e := items[j];
      if |e.data| == 0 || |e.data[0].data| < 5 then None
      else
        var m := e.data[0];
        match Unquote(m.data[0].text)
        case None => None
        case Some(key) =>
          match DecodeElement(m.data[4])
          case None => None
          case Some(v) =>
            match DecodeMembers(d, j + 1)
            case None => None
            case Some(rest) => Some([Entry(key, v)] + rest)
  }
}
