/** The library's entry points `json::decode` and `json::encode`, and the
    round trip between them. */
module Codec {
  import opened MatchResult
  import opened Matchers
  import opened Combinators
  import opened Peg
  import opened Grammar
  import opened OrderedMap
  import opened Json
  import opened Decoder
  import opened Encoder
  import opened Layout
  import opened ParseShape
  import opened ParseAt
  import opened RoundTrip

  /** `json::decoded`: `error` is -1 when the text parsed, and otherwise
      the farthest offset the parser reached; `value` is set only on
      success. */
  datatype Decoded = Decoded(error: int, value: Option<Value>)

  /** The text a C string built from `s` holds: `s` up to its first NUL,
      which is where `strlen` and the matchers' NUL tests stop. */
  function CStr(s: string): (c: CString)
    ensures |c| <= |s| && c == s[..|c|]
    ensures |c| < |s| ==> s[|c|] == NUL
    ensures NUL !in s ==> c == s
  {
    if |s| == 0 || s[0] == NUL then []
    else
      var rest := CStr(s[1..]);
      assert s[..1 + |rest|] == [s[0]] + s[1..][..|rest|];
      [s[0]] + rest
  }

  /** `json::decode`: parse one element at the start of the text; on
      failure report where the parser got to, on success the decoded
      value. Text after the element is not looked at, and neither is
      text from the first NUL on: the C++ `strmatch` can step over a NUL
      that follows a backslash, which this model does not follow. */
  function Decode(s: string): (r: Decoded)
    ensures r.error == -1 <==> !IsFail(Element(CStr(s), 0))
    ensures r.error == -1 ==> r.value.Some?
    ensures r.error != -1 ==> r == Decoded(Element(CStr(s), 0).error, None)
  {
    var c := CStr(s);
    var a := Element(c, 0);
    assert a == CasesOf(Sub(ElementRule, ElementRule, c, 0), 5, 0, "element");
    CasesSpec(Sub(ElementRule, ElementRule, c, 0), 5, 0, "element");
    ElementDecodes(c, 0);
    if IsFail(a) then Decoded(a.error, None) else Decoded(-1, DecodeElement(a))
  }

  /** Decoding the encoding of a value gives the value back, for every
      value whose encoding the decoder can read back (see `Encodable`). */
  lemma EncodeDecode(v: Value)
    requires Encodable(v)
    ensures Decode(Encode(v)) == Decoded(-1, Some(v))
  {
    var s := Encode(v);
    EncodeOsNoNul(v, "", false);
    var c: CString := s;
    assert CStr(s) == c;
    var w := Core(v, "");
    assert s == w + "\n";
    assert c[0..|w|] == w;
    HasAtDef(c, 0, w);
    ParseValue(v, "", c, 0);
  }

  /** A quoted string decodes to its contents exactly as written: the
      decoder drops the two quotes and keeps every escape sequence raw.
      This holds for any contents that `strmatch` scans through to the final
      quote, that is, where each backslash takes the next character and no
      other quote stands. */
  lemma DecodeRawString(q: CString, x: string)
    requires q == "\"" + x + "\"" && StrBody(q, 1, |q| - 1)
    ensures Decode(q) == Decoded(-1, Some(String(x)))
  {
    assert q[1..|q| - 1] == x;
    QuotedElement(q);
    DecodeParsed(q);
  }

  /** Where the model stops short of the C++: in quote, `a`, backslash,
      NUL, `b`, quote, the backslash stands last in the text before the NUL,
      so the string branch finds no closing quote there and `decode` fails
      with that text's end as its error. */
  lemma DecodeCutAtNul(s: string)
    requires s == ['"', 'a', '\\', NUL, 'b', '"']
    ensures CStr(s) == ['"', 'a', '\\']
    ensures Decode(s) == Decoded(3, None)
  {
    var c := CStr(s);
    assert c == ['"', 'a', '\\'];
    ElementCutFails(c);
  }

  /** The text before that NUL fails as an element, the string branch
      reaching farthest. */
  lemma ElementCutFails(c: CString)
    requires c == ['"', 'a', '\\']
    ensures IsFail(Element(c, 0)) && Element(c, 0).error == 3
  {
    var f := Sub(ElementRule, ElementRule, c, 0);
    assert Element(c, 0) == CasesOf(f, 5, 0, "element");
    BranchFailsAtStart(c, ArrayRule, 0);
    BranchFailsAtStart(c, ObjectRule, 1);
    SubIsEval(ElementRule, ElementRule, c, 0, 2, 0);
    SubIsEval(ElementRule, ElementRule, c, 0, 4, 0);
    StrSpec(c, 0);
    assert f(2, 0) == Fail(0, 3, "string");
    BooleanFailsAt(c);
    NumSpec(c, 0);
    assert f(4, 0).error == 0;
    CasesSpec(f, 5, 0, "element");
  }

  /** A bracketed branch fails at the start of the text when its opening
      token is not there, with error 0. */
  lemma BranchFailsAtStart(c: CString, g: Rule, k: nat)
    requires c == ['"', 'a', '\\'] && k < 2 && g == ElementRule.rules[k]
    ensures var f := Sub(ElementRule, ElementRule, c, 0); IsFail(f(k, 0)) && f(k, 0).error == 0
  {
    var h := Sub(ElementRule, g, c, 0);
    SubIsEval(ElementRule, ElementRule, c, 0, k, 0);
    SubIsEval(ElementRule, g, c, 0, 0, 0);
    TokenSpec(g.rules[0].text, "", c, 0);
    assert h(0, 0) == Fail(0, 0, "");
    AllFailOfTrace(h, 5, 0, g.tag, [h(0, 0)]);
  }

  /** The `true`/`false` branch fails there too, with error 0. */
  lemma BooleanFailsAt(c: CString)
    requires c == ['"', 'a', '\\']
    ensures var f := Sub(ElementRule, ElementRule, c, 0); IsFail(f(3, 0)) && f(3, 0).error == 0
  {
    var h := Sub(ElementRule, BooleanRule, c, 0);
    SubIsEval(ElementRule, ElementRule, c, 0, 3, 0);
    SubIsEval(ElementRule, BooleanRule, c, 0, 0, 0);
    SubIsEval(ElementRule, BooleanRule, c, 0, 1, 0);
    TokenSpec("true", "", c, 0);
    TokenSpec("false", "", c, 0);
    CasesSpec(h, 2, 0, "boolean");
  }

  /** On a C string that parses, `decode` returns the decoded element. */
  lemma DecodeParsed(c: CString)
    requires !IsFail(Element(c, 0))
    ensures Decode(c) == Decoded(-1, DecodeElement(Element(c, 0)))
  {
    assert CStr(c) == c;
  }

  // ----- the encoder writes no NUL -----

  lemma {:induction false} EncodeOsNoNul(v: Value, tab: string, c: bool)
    requires Encodable(v) && NUL !in tab
    ensures NUL !in EncodeOs(v, tab, c)
    decreases v, 2
  {
    CoreNoNul(v, tab);
  }

  lemma {:induction false} CoreNoNul(v: Value, tab: string)
    requires Encodable(v) && NUL !in tab
    ensures NUL !in Core(v, tab)
    decreases v, 1
  {
    match v
    case Boolean(_) =>
    case Number(_) =>
    case String(x) =>
      assert Clean(x);
    case Array(_) =>
      ItemsNoNul(v, tab, 0);
    case Object(_) =>
      MembersNoNul(v, tab, 0);
  }

  lemma {:induction false} ItemsNoNul(v: Value, tab: string, j: nat)
    requires v.Array? && Encodable(v) && NUL !in tab
    ensures NUL !in Items(v, tab, j)
    decreases v, 0, |v.items| - j
  {
    if j < |v.items| {
      EncodeOsNoNul(v.items[j], tab + Indent, j + 1 < |v.items|);
      ItemsNoNul(v, tab, j + 1);
    }
  }

  lemma {:induction false} MembersNoNul(v: Value, tab: string, j: nat)
    requires v.Object? && Encodable(v) && NUL !in tab
    ensures NUL !in Members(v, tab, j)
    decreases v, 0, |v.fields.entries| - j
  {
    var es := v.fields.entries;
    if j < |es| {
      MemberLinesNoNul(es[j], tab, j + 1 < |es|);
      MembersNoNul(v, tab, j + 1);
    }
  }

  lemma {:induction false} MemberLinesNoNul(en: Entry<Value>, tab: string, c: bool)
    requires Clean(en.key) && Encodable(en.val) && NUL !in tab
    ensures NUL !in MemberLines(en, tab, c)
    decreases en.val, 3
  {
    EncodeOsNoNul(en.val, tab + Indent8, c);
  }
}
