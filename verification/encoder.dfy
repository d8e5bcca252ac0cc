/** The C++ `encoder` namespace: one value per line, nested values indented
    by four spaces, object members as a quoted key on its own line followed
    by the member's value indented by eight. Strings and keys are written
    between quotes as they are, without escaping. */
module Encoder {
  import opened OrderedMap
  import opened Json

  /** What ends a value's last line: a comma when more items follow. */
  function Comma(c: bool): string
  {
    if c then ",\n" else "\n"
  }

  const Indent: string := "    "

  /** The indentation of a member's value under its key. */
  const Indent8: string := Indent + Indent

  /** `encodeos(v, tab, os, c)`: every kind writes `tab`, then the value,
      then `comma(c)`. */
  function EncodeOs(v: Value, tab: string, c: bool): string
    decreases v, 2
  {
    tab + Core(v, tab) + Comma(c)
  }

  /** The text written for `v` between its indentation and its comma. */
  function Core(v: Value, tab: string): string
    decreases v, 1
  {
    match v
    case Boolean(b) => if b then "true" else "false"
    case Number(t) => t
    case String(x) => "\"" + x + "\""
    case Array(xs) => "[\n" + Items(v, tab, 0) + tab + "]"
    case Object(h) => "{\n" + Members(v, tab, 0) + tab + "}"
  }

  /** The elements of array `v` from the `j`-th on, each followed by a comma
      unless it is the last. */
  function Items(v: Value, tab: string, j: nat): string
    requires v.Array?
    decreases v, 0, |v.items| - j
  {
    if j >= |v.items| then ""
    else EncodeOs(v.items[j], tab + Indent, j + 1 < |v.items|) + Items(v, tab, j + 1)
  }

  /** The members of object `v` from the `j`-th on. */
  function Members(v: Value, tab: string, j: nat): string
    requires v.Object?
    decreases v, 0, |v.fields.entries| - j
  {
    var es := v.fields.entries;
    if j >= |es| then ""
    else MemberLines(es[j], tab, j + 1 < |es|) + Members(v, tab, j + 1)
  }

  /** One member of an object written at indentation `tab`: the quoted key
      and a colon on a line of their own, then the value indented by eight
      more spaces. */
  function MemberLines(en: Entry<Value>, tab: string, c: bool): string
    decreases en.val, 3
  {
    tab + Indent + "\"" + en.key + "\":" + "\n" + EncodeOs(en.val, tab + Indent8, c)
  }

  /** `json::encode`: the value at the outermost level, unindented. */
  function Encode(v: Value): string
  {
    EncodeOs(v, "", false)
  }
}
