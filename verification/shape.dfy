/** Every successful parse of the grammar has the shape the decoder reads:
    `decoder::element` never reaches its `abort()`, and no index the decoder
    uses is missing. */
module ParseShape {
  import opened MatchResult
  import opened Combinators
  import opened Peg
  import opened Grammar
  import opened Json
  import opened Decoder

  /** What `decoder::array` needs of one item of the repetition. */
  predicate ItemOk(e: Ast)
  {
    |e.data| > 0 && DecodeElement(e.data[0]).Some?
  }

  /** What `decoder::object` needs of one item of the repetition. */
  predicate PairOk(e: Ast)
  {
    && |e.data| > 0 && |e.data[0].data| >= 5 && |e.data[0].data[0].text| > 0
    && DecodeElement(e.data[0].data[4]).Some?
  }

  lemma {:induction false} DecodeItemsSome(d: Ast, j: nat)
    requires 3 <= |d.data| && forall k :: 0 <= k < |d.data[2].data| ==> ItemOk(d.data[2].data[k])
    ensures DecodeItems(d, j).Some?
    decreases |d.data[2].data| - j
  {
    if j < |d.data[2].data| {
      assert ItemOk(d.data[2].data[j]);
      DecodeItemsSome(d, j + 1);
    }
  }

  lemma {:induction false} DecodeMembersSome(d: Ast, j: nat)
    requires 3 <= |d.data| && forall k :: 0 <= k < |d.data[2].data| ==> PairOk(d.data[2].data[k])
    ensures DecodeMembers(d, j).Some?
    decreases |d.data[2].data| - j
  {
    if j < |d.data[2].data| {
      assert PairOk(d.data[2].data[j]);
      DecodeMembersSome(d, j + 1);
    }
  }

  /** The decoder accepts every successful parse of an element. */
  lemma {:induction false} ElementDecodes(s: CString, i: nat)
    requires i <= |s|
    ensures !IsFail(Element(s, i)) ==> DecodeElement(Element(s, i)).Some?
    decreases |s| - i, 5
  {
    var f := Sub(ElementRule, ElementRule, s, i);
    assert Element(s, i) == CasesOf(f, 5, i, "element");
    if !IsFail(Element(s, i)) {
      var m := CasesChosen(f, 5, i, "element");
      SubIsEval(ElementRule, ElementRule, s, i, m, i);
      BranchDecodes(s, i, m);
    }
  }

  /** Whichever branch of `element` succeeds, the decoder accepts it. */
  lemma {:induction false} BranchDecodes(s: CString, i: nat, m: nat)
    requires i <= |s| && m < 5
    ensures var d := Eval(ElementRule, ElementRule.rules[m], s, i, i);
      !IsFail(d) ==> DecodeElement(Ast(i, d.length, i, "element", [d], "")).Some?
    decreases |s| - i, 4
  {
    var d := Eval(ElementRule, ElementRule.rules[m], s, i, i);
    if !IsFail(d) {
      if m == 0 {
        ArrayDecodes(s, i);
      } else if m == 1 {
        ObjectDecodes(s, i);
      } else if m == 3 {
        var fb := Sub(ElementRule, BooleanRule, s, i);
        assert d == CasesOf(fb, 2, i, "boolean");
        var k := CasesChosen(fb, 2, i, "boolean");
      }
    }
  }

  lemma {:induction false} ArrayDecodes(s: CString, i: nat)
    requires i <= |s|
    ensures var d := Eval(ElementRule, ArrayRule, s, i, i);
      !IsFail(d) ==> d.tag == "array" && DecodeArray(d).Some?
    decreases |s| - i, 3
  {
    var d := Eval(ElementRule, ArrayRule, s, i, i);
    var f := Sub(ElementRule, ArrayRule, s, i);
    assert d == AllOf(f, 5, i, "array");
    if !IsFail(d) {
      var p := OpenedAt(ArrayRule, "[", Many(ItemRule, ""), "]", "array", s, i);
      ManyItemsDecode(s, p, i);
      DecodeItemsSome(d, 0);
    }
  }

  lemma {:induction false} ObjectDecodes(s: CString, i: nat)
    requires i <= |s|
    ensures var d := Eval(ElementRule, ObjectRule, s, i, i);
      !IsFail(d) ==> d.tag == "object" && DecodeObject(d).Some?
    decreases |s| - i, 3
  {
    var d := Eval(ElementRule, ObjectRule, s, i, i);
    var f := Sub(ElementRule, ObjectRule, s, i);
    assert d == AllOf(f, 5, i, "object");
    if !IsFail(d) {
      var p := OpenedAt(ObjectRule, "{", Many(PairRule, ""), "}", "object", s, i);
      ManyPairsDecode(s, p, i);
      DecodeMembersSome(d, 0);
    }
  }

  /** A successful bracketed rule (array or object) holds five results, the
      third being its repetition run strictly after the opening bracket. */
  lemma OpenedAt(g: Rule, open: string, body: Rule, close: string, tag: string, s: CString, i: nat) returns (p: nat)
    requires g == All([Token(open, ""), Ws, body, Ws, Token(close, "")], tag)
    requires |open| == 1 && i <= |s| && !IsFail(Eval(ElementRule, g, s, i, i))
    ensures var d := Eval(ElementRule, g, s, i, i);
      && d.tag == tag && |d.data| == 5 && i < p <= |s|
      && d.data[2] == Eval(ElementRule, body, s, p, i)
  {
    var f := Sub(ElementRule, g, s, i);
    assert Eval(ElementRule, g, s, i, i) == AllOf(f, 5, i, tag);
    SubFits(ElementRule, g, s, i);
    var p0 := AllPart(f, 5, i, tag, i, |s|, 0);
    SubIsEval(ElementRule, g, s, i, 0, i);
    var p2 := AllPart(f, 5, i, tag, i, |s|, 2);
    SubIsEval(ElementRule, g, s, i, 2, p2);
    p := p2;
  }

  lemma {:induction false} ManyItemsDecode(s: CString, p: nat, b: nat)
    requires b < p <= |s|
    ensures var m := Eval(ElementRule, Many(ItemRule, ""), s, p, b);
      forall k :: 0 <= k < |m.data| ==> ItemOk(m.data[k])
    decreases |s| - b, 2
  {
    var g := Many(ItemRule, "");
    var f := Sub(ElementRule, g, s, b);
    assert Eval(ElementRule, g, s, p, b) == ManyOf(f, |s|, p, "");
    SubFits(ElementRule, g, s, b);
    forall k: nat, q: int | p <= q <= |s| && !IsFail(f(k, q))
      ensures ItemOk(f(k, q))
    {
      SubIsEval(ElementRule, g, s, b, k, q);
      ItemDecodes(s, q, b);
    }
    ManyItemsAll(f, |s|, p, "", b, ItemOk);
  }

  lemma {:induction false} ManyPairsDecode(s: CString, p: nat, b: nat)
    requires b < p <= |s|
    ensures var m := Eval(ElementRule, Many(PairRule, ""), s, p, b);
      forall k :: 0 <= k < |m.data| ==> PairOk(m.data[k])
    decreases |s| - b, 2
  {
    var g := Many(PairRule, "");
    var f := Sub(ElementRule, g, s, b);
    assert Eval(ElementRule, g, s, p, b) == ManyOf(f, |s|, p, "");
    SubFits(ElementRule, g, s, b);
    forall k: nat, q: int | p <= q <= |s| && !IsFail(f(k, q))
      ensures PairOk(f(k, q))
    {
      SubIsEval(ElementRule, g, s, b, k, q);
      PairDecodes(s, q, b);
    }
    ManyItemsAll(f, |s|, p, "", b, PairOk);
  }

  /** An array item's first result is an element run as a fresh expansion
      of the root, which the decoder accepts. */
  lemma {:induction false} ItemDecodes(s: CString, q: nat, b: nat)
    requires b < q <= |s|
    ensures var a := Eval(ElementRule, ItemRule, s, q, b);
      !IsFail(a) ==> ItemOk(a)
    decreases |s| - b, 0
  {
    var a := Eval(ElementRule, ItemRule, s, q, b);
    var f := Sub(ElementRule, ItemRule, s, b);
    assert a == AllOf(f, 2, q, "");
    if !IsFail(a) {
      SubFits(ElementRule, ItemRule, s, b);
      var p0 := AllPart(f, 2, q, "", b, |s|, 0);
      SubIsEval(ElementRule, ItemRule, s, b, 0, q);
      LazyIsElement(s, q, b);
      ElementDecodes(s, q);
    }
  }

  /** An object item's first result is a member the decoder accepts. */
  lemma {:induction false} PairDecodes(s: CString, q: nat, b: nat)
    requires b < q <= |s|
    ensures var a := Eval(ElementRule, PairRule, s, q, b);
      !IsFail(a) ==> PairOk(a)
    decreases |s| - b, 1
  {
    var a := Eval(ElementRule, PairRule, s, q, b);
    var f := Sub(ElementRule, PairRule, s, b);
    assert a == AllOf(f, 2, q, "");
    if !IsFail(a) {
      SubFits(ElementRule, PairRule, s, b);
      var p0 := AllPart(f, 2, q, "", b, |s|, 0);
      SubIsEval(ElementRule, PairRule, s, b, 0, q);
      MemberDecodes(s, q, b);
    }
  }

  /** A member is a string with at least its two quotes, then four more
      results, the last an element run as a fresh expansion of the root. */
  lemma {:induction false} MemberDecodes(s: CString, q: nat, b: nat)
    requires b < q <= |s|
    ensures var m := Eval(ElementRule, MemberRule, s, q, b);
      !IsFail(m) ==>
        |m.data| == 5 && |m.data[0].text| >= 2 && DecodeElement(m.data[4]).Some?
    decreases |s| - b, 0
  {
    var m := Eval(ElementRule, MemberRule, s, q, b);
    var f := Sub(ElementRule, MemberRule, s, b);
    assert m == AllOf(f, 5, q, "");
    if !IsFail(m) {
      SubFits(ElementRule, MemberRule, s, b);
      var p0 := AllPart(f, 5, q, "", b, |s|, 0);
      SubIsEval(ElementRule, MemberRule, s, b, 0, q);
      var p4 := AllPart(f, 5, q, "", b, |s|, 4);
      SubIsEval(ElementRule, MemberRule, s, b, 4, p4);
      LazyIsElement(s, p4, b);
      ElementDecodes(s, p4);
    }
  }

  // ----- every success consumes input -----

  /** A successful element is never empty: an array or object starts with
      its bracket, a string with its two quotes, a boolean with its word
      and a number with at least one character. */
  lemma {:induction false} ElementConsumes(s: CString, i: nat)
    requires i <= |s|
    ensures !IsFail(Element(s, i)) ==> 1 <= Element(s, i).length
  {
    var f := Sub(ElementRule, ElementRule, s, i);
    assert Element(s, i) == CasesOf(f, 5, i, "element");
    if !IsFail(Element(s, i)) {
      var m := CasesChosen(f, 5, i, "element");
      SubIsEval(ElementRule, ElementRule, s, i, m, i);
      BranchConsumes(s, i, m);
    }
  }

  /** Each successful branch of `element` consumes at least one character. */
  lemma {:induction false} BranchConsumes(s: CString, i: nat, m: nat)
    requires i <= |s| && m < 5
    ensures var d := Eval(ElementRule, ElementRule.rules[m], s, i, i);
      !IsFail(d) ==> 1 <= d.length
  {
    var g := ElementRule.rules[m];
    var d := Eval(ElementRule, g, s, i, i);
    if !IsFail(d) {
      if m < 2 {
        var f := Sub(ElementRule, g, s, i);
        assert d == AllOf(f, 5, i, g.tag);
        SubFits(ElementRule, g, s, i);
        AllOfCovers(f, 5, i, g.tag, i, |s|);
        SubIsEval(ElementRule, g, s, i, 0, i);
      } else if m == 3 {
        var fb := Sub(ElementRule, BooleanRule, s, i);
        assert d == CasesOf(fb, 2, i, "boolean");
        var k := CasesChosen(fb, 2, i, "boolean");
        SubIsEval(ElementRule, BooleanRule, s, i, k, i);
      }
    }
  }

  /** An array item, when it succeeds, consumes at least one character; at
      the offset where the enclosing element started its `lazy` reference
      fails, so the item does too. */
  lemma {:induction false} ItemConsumes(s: CString, q: nat, b: nat)
    requires b <= q <= |s|
    ensures var a := Eval(ElementRule, ItemRule, s, q, b);
      !IsFail(a) ==> 1 <= a.length
  {
    var a := Eval(ElementRule, ItemRule, s, q, b);
    var f := Sub(ElementRule, ItemRule, s, b);
    assert a == AllOf(f, 2, q, "");
    if !IsFail(a) {
      SubFits(ElementRule, ItemRule, s, b);
      AllOfCovers(f, 2, q, "", b, |s|);
      SubIsEval(ElementRule, ItemRule, s, b, 0, q);
      if b < q {
        LazyIsElement(s, q, b);
        ElementConsumes(s, q);
      }
    }
  }

  /** An object item, when it succeeds, consumes at least the two quotes
      of its key. */
  lemma {:induction false} PairConsumes(s: CString, q: nat, b: nat)
    requires b <= q <= |s|
    ensures var a := Eval(ElementRule, PairRule, s, q, b);
      !IsFail(a) ==> 2 <= a.length
  {
    var a := Eval(ElementRule, PairRule, s, q, b);
    var f := Sub(ElementRule, PairRule, s, b);
    assert a == AllOf(f, 2, q, "");
    if !IsFail(a) {
      SubFits(ElementRule, PairRule, s, b);
      AllOfCovers(f, 2, q, "", b, |s|);
      SubIsEval(ElementRule, PairRule, s, b, 0, q);
      var m := Eval(ElementRule, MemberRule, s, q, b);
      var fm := Sub(ElementRule, MemberRule, s, b);
      assert m == AllOf(fm, 5, q, "");
      SubFits(ElementRule, MemberRule, s, b);
      AllOfCovers(fm, 5, q, "", b, |s|);
      SubIsEval(ElementRule, MemberRule, s, b, 0, q);
    }
  }

  /** The repetition of `array` stops exactly where the C++ loop of `many`
      does: on a failed item, or on one that reaches the end of the input.
      The model's extra stop on a zero-length success never fires here. */
  lemma {:induction false} ItemsStop(s: CString, p: nat, b: nat)
    requires b <= p <= |s|
    ensures var r := Eval(ElementRule, Many(ItemRule, ""), s, p, b);
      && 0 <= r.length && p + r.length <= |s|
      && var a := Eval(ElementRule, ItemRule, s, p + r.length, b);
         IsFail(a) || |s| <= p + r.length + a.length
  {
    var g := Many(ItemRule, "");
    var f := Sub(ElementRule, g, s, b);
    var r := Eval(ElementRule, g, s, p, b);
    assert r == ManyOf(f, |s|, p, "");
    ManySpec(f, |s|, p, "");
    ManyOfFits(f, |s|, p, "");
    SubIsEval(ElementRule, g, s, b, |r.data|, p + r.length);
    ItemConsumes(s, p + r.length, b);
  }

  /** The same for the repetition of `object`. */
  lemma {:induction false} PairsStop(s: CString, p: nat, b: nat)
    requires b <= p <= |s|
    ensures var r := Eval(ElementRule, Many(PairRule, ""), s, p, b);
      && 0 <= r.length && p + r.length <= |s|
      && var a := Eval(ElementRule, PairRule, s, p + r.length, b);
         IsFail(a) || |s| <= p + r.length + a.length
  {
    var g := Many(PairRule, "");
    var f := Sub(ElementRule, g, s, b);
    var r := Eval(ElementRule, g, s, p, b);
    assert r == ManyOf(f, |s|, p, "");
    ManySpec(f, |s|, p, "");
    ManyOfFits(f, |s|, p, "");
    SubIsEval(ElementRule, g, s, b, |r.data|, p + r.length);
    PairConsumes(s, p + r.length, b);
  }
}
