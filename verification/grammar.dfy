/** The JSON grammar of the C++ `parser` namespace, written as rules of the
    engine. `Lazy` stands for the forward reference `lazy(element_ptr)`, so
    every grammar below is run with `ElementRule` as its root. */
module Grammar {
  import opened MatchResult
  import opened Peg

  const BooleanRule: Rule := Cases([Token("true", ""), Token("false", "")], "boolean")

  /** `"key"`, blanks, a colon, blanks, then a value. */
  const MemberRule: Rule := All([Str, Ws, Token(":", ""), Ws, Lazy], "")

  /** One element of an array with the blanks (and commas) after it. */
  const ItemRule: Rule := All([Lazy, Ws], "")

  /** One member of an object with the blanks (and commas) after it. */
  const PairRule: Rule := All([MemberRule, Ws], "")

  const ArrayRule: Rule := All([Token("[", ""), Ws, Many(ItemRule, ""), Ws, Token("]", "")], "array")

  const ObjectRule: Rule := All([Token("{", ""), Ws, Many(PairRule, ""), Ws, Token("}", "")], "object")

  /** The branches are tried in this order; the first that matches wins. */
  const ElementRule: Rule := Cases([ArrayRule, ObjectRule, Str, BooleanRule, Num], "element")

  /** `parser::element(s, i)`: the element rule run at `i` as a fresh
      expansion of the root. */
  function Element(s: CString, i: nat): Ast
    requires i <= |s|
  {
    Eval(ElementRule, ElementRule, s, i, i)
  }

  /** A forward reference reached after the current expansion of the root
      has consumed input is a fresh run of `element` there. */
  lemma LazyIsElement(s: CString, q: nat, b: nat)
    requires b < q <= |s|
    ensures Eval(ElementRule, Lazy, s, q, b) == Element(s, q)
  {
  }
}
