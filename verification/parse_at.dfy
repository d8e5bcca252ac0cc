/** What the grammar matches at a place of the input whose text is known:
    the building blocks for reading the encoder's output back, stated
    without reference to values. */
module ParseAt {
  import opened MatchResult
  import opened Matchers
  import opened Combinators
  import opened Peg
  import opened Grammar
  import opened Json
  import opened Decoder
  import opened Layout

  /** `f` is how rule `g` runs its sub-rules inside an expansion of the
      root that started at `b`. The equation sits two recursive calls
      down, in `IsRunnerBy`, deeper than the verifier unfolds on its own,
      so that a proof about a repetition can treat `f` as any runner and
      see the equation only through `IsRunnerDef`. */
  ghost predicate IsRunner(f: Runner, g: Rule, s: CString, b: nat)
  {
    IsRunnerBy(f, g, s, b, |s| + 2)
  }

  ghost predicate IsRunnerBy(f: Runner, g: Rule, s: CString, b: nat, n: nat)
    decreases n
  {
    if n <= |s| then forall k: nat, p: int :: f(k, p) == Sub(ElementRule, g, s, b)(k, p)
    else IsRunnerBy(f, g, s, b, n - 1)
  }

  lemma IsRunnerDef(f: Runner, g: Rule, s: CString, b: nat)
    ensures IsRunner(f, g, s, b) <==> forall k: nat, p: int :: f(k, p) == Sub(ElementRule, g, s, b)(k, p)
  {
    assert IsRunnerBy(f, g, s, b, |s| + 2) == IsRunnerBy(f, g, s, b, |s| + 1);
    assert IsRunnerBy(f, g, s, b, |s| + 1) == IsRunnerBy(f, g, s, b, |s|);
  }

  /** The element rule's own runner over `g` is a runner. */
  lemma SubIsRunner(g: Rule, s: CString, b: nat)
    ensures IsRunner(Sub(ElementRule, g, s, b), g, s, b)
  {
    IsRunnerDef(Sub(ElementRule, g, s, b), g, s, b);
  }

  // ----- sequences of the shapes the grammar uses -----

  /** A sequence of two sub-rules that both succeed in turn. */
  lemma AllOfTwo(f: Runner, i: int, tag: string, p1: int)
    requires !IsFail(f(0, i)) && p1 == i + f(0, i).length && !IsFail(f(1, p1))
    ensures AllOf(f, 2, i, tag) == Ast(i, p1 + f(1, p1).length - i, i, tag, [f(0, i), f(1, p1)], "")
  {
    TraceOne(f, 1, p1);
    TraceCons(f, 0, i, f(0, i), [f(1, p1)]);
    AllOfTrace(f, 2, i, tag, [f(0, i)] + [f(1, p1)]);
  }

  /** A sequence of five sub-rules that all succeed in turn. */
  lemma AllOfFive(f: Runner, i: int, tag: string, p1: int, p2: int, p3: int, p4: int)
    requires !IsFail(f(0, i)) && p1 == i + f(0, i).length
    requires !IsFail(f(1, p1)) && p2 == p1 + f(1, p1).length
    requires !IsFail(f(2, p2)) && p3 == p2 + f(2, p2).length
    requires !IsFail(f(3, p3)) && p4 == p3 + f(3, p3).length
    requires !IsFail(f(4, p4))
    ensures AllOf(f, 5, i, tag) ==
      Ast(i, p4 + f(4, p4).length - i, i, tag, [f(0, i), f(1, p1), f(2, p2), f(3, p3), f(4, p4)], "")
  {
    var a0, a1, a2, a3, a4 := f(0, i), f(1, p1), f(2, p2), f(3, p3), f(4, p4);
    TraceOne(f, 4, p4);
    TraceCons(f, 3, p3, a3, [a4]);
    TraceCons(f, 2, p2, a2, [a3] + [a4]);
    TraceCons(f, 1, p1, a1, [a2] + ([a3] + [a4]));
    TraceCons(f, 0, i, a0, [a1] + ([a2] + ([a3] + [a4])));
    assert [a0] + ([a1] + ([a2] + ([a3] + [a4]))) == [a0, a1, a2, a3, a4];
    AllOfTrace(f, 5, i, tag, [a0, a1, a2, a3, a4]);
  }

  /** A sequence of five sub-rules shaped like an array or an object: an
      opening literal, blanks, a repetition, no blanks, and a closing
      literal, all succeeding in turn. */
  lemma AllOfBracketed(f: Runner, i: int, tag: string, open: string, close: string, p2: int, c: int, items: seq<Ast>)
    requires f(0, i) == Ast(i, 1, i, "", [], open)
    requires i + 1 <= p2 && f(1, i + 1) == Ast(i + 1, p2 - (i + 1), p2, "ws", [], "")
    requires !IsFail(f(2, p2)) && p2 + f(2, p2).length == c && p2 <= c && f(2, p2).data == items
    requires f(3, c) == Ast(c, 0, c, "ws", [], "") && f(4, c) == Ast(c, 1, c, "", [], close)
    ensures var d := AllOf(f, 5, i, tag);
      && !IsFail(d) && d.tag == tag && d.length == c + 1 - i && |d.data| == 5 && d.data[2].data == items
  {
    AllOfFive(f, i, tag, i + 1, p2, c, c);
  }

  // ----- the element rule -----

  /** The characters a branch of `element` can start with, branch by
      branch: array, object, string, boolean, number. */
  predicate Opens(c: char, m: nat)
  {
    if m == 0 then c == '['
    else if m == 1 then c == '{'
    else if m == 2 then c == '"'
    else if m == 3 then c == 't' || c == 'f'
    else IsNumChar(c)
  }

  /** A branch of `element` fails where its first character is missing. */
  lemma BranchFailsAt(s: CString, i: nat, b: nat, m: nat)
    requires b <= i <= |s| && m < 5 && !Opens(At(s, i), m)
    ensures IsFail(Eval(ElementRule, ElementRule.rules[m], s, i, b))
  {
    var E := ElementRule;
    if m == 0 {
      OpenerFails(ArrayRule, "[", s, i, b);
    } else if m == 1 {
      OpenerFails(ObjectRule, "{", s, i, b);
    } else if m == 3 {
      var f := Sub(E, BooleanRule, s, b);
      assert Eval(E, BooleanRule, s, i, b) == CasesOf(f, 2, i, "boolean");
      SubIsEval(E, BooleanRule, s, b, 0, i);
      SubIsEval(E, BooleanRule, s, b, 1, i);
      TokenSpec("true", "", s, i);
      TokenSpec("false", "", s, i);
      if i + 4 <= |s| {
        assert s[i..i + 4][0] == s[i];
      }
      if i + 5 <= |s| {
        assert s[i..i + 5][0] == s[i];
      }
      CasesSpec(f, 2, i, "boolean");
    } else if m == 4 {
      NumSpec(s, i);
    }
  }

  /** A bracketed rule fails where its opening character is missing. */
  lemma OpenerFails(g: Rule, open: string, s: CString, i: nat, b: nat)
    requires g == ArrayRule || g == ObjectRule
    requires open == g.rules[0].text && |open| == 1
    requires b <= i <= |s| && At(s, i) != open[0]
    ensures IsFail(Eval(ElementRule, g, s, i, b))
  {
    var f := Sub(ElementRule, g, s, b);
    assert Eval(ElementRule, g, s, i, b) == AllOf(f, 5, i, g.tag);
    SubIsEval(ElementRule, g, s, b, 0, i);
    TokenSpec(open, "", s, i);
    if i + 1 <= |s| {
      assert s[i..i + 1][0] == s[i];
    }
    AllFirstFails(f, 5, i, g.tag);
  }

  /** `element` fails at a closing bracket or brace: this is what ends the
      repetitions of array items and object members. */
  lemma ElementAtClose(s: CString, q: nat)
    requires q < |s| && (s[q] == ']' || s[q] == '}')
    ensures IsFail(Element(s, q))
  {
    var E := ElementRule;
    var f := Sub(E, E, s, q);
    assert Element(s, q) == CasesOf(f, 5, q, "element");
    forall m | 0 <= m < 5
      ensures IsFail(f(m, q))
    {
      SubIsEval(E, E, s, q, m, q);
      BranchFailsAt(s, q, q, m);
    }
    CasesSpec(f, 5, q, "element");
  }

  /** `element` takes the first branch whose opening character is present,
      when that branch matches. */
  lemma ElementChoice(s: CString, i: nat, m: nat)
    requires i <= |s| && m < 5
    requires forall j :: 0 <= j < m ==> !Opens(At(s, i), j)
    requires !IsFail(Eval(ElementRule, ElementRule.rules[m], s, i, i))
    ensures var d := Eval(ElementRule, ElementRule.rules[m], s, i, i);
      Element(s, i) == Ast(i, d.length, i, "element", [d], "")
  {
    var E := ElementRule;
    var f := Sub(E, E, s, i);
    assert Element(s, i) == CasesOf(f, 5, i, "element");
    forall j | 0 <= j < m
      ensures IsFail(f(j, i))
    {
      SubIsEval(E, E, s, i, j, i);
      BranchFailsAt(s, i, i, j);
    }
    SubIsEval(E, E, s, i, m, i);
    CasesOfFirst(f, 5, i, "element", m);
  }

  /** `true` and `false` are matched by the boolean rule, the first of
      its two literals telling which. */
  lemma BooleanAt(bv: bool, s: CString, i: nat)
    requires HasAt(s, i, if bv then "true" else "false")
    ensures var d := Eval(ElementRule, BooleanRule, s, i, i);
      && !IsFail(d) && d.tag == "boolean" && d.length == (if bv then 4 else 5)
      && |d.data| > 0 && (d.data[0].text == "true" <==> bv)
  {
    var E := ElementRule;
    var f := Sub(E, BooleanRule, s, i);
    assert Eval(E, BooleanRule, s, i, i) == CasesOf(f, 2, i, "boolean");
    SubIsEval(E, BooleanRule, s, i, 0, i);
    SubIsEval(E, BooleanRule, s, i, 1, i);
    if bv {
      TokenAt("true", "", s, i);
      CasesOfFirst(f, 2, i, "boolean", 0);
    } else {
      TokenAt("false", "", s, i);
      TokenSpec("true", "", s, i);
      HasAtChar(s, i, "false", 0);
      if i + 4 <= |s| {
        assert s[i..i + 4][0] == s[i];
      }
      CasesOfFirst(f, 2, i, "boolean", 1);
    }
  }

  /** A clean string between quotes is matched whole, and its text loses
      the quotes again when decoded. */
  lemma StringAt(x: string, s: CString, i: nat)
    requires Clean(x) && HasAt(s, i, "\"" + x + "\"")
    ensures var d := StrMatch(s, i);
      && d == Ast(i, |x| + 2, i + |x| + 1, "string", [], "\"" + x + "\"")
      && Unquote(d.text) == Some(x)
  {
    var q := "\"" + x + "\"";
    HasAtDef(s, i, q);
    HasAtSplit(s, i, "\"" + x, "\"");
    HasAtSplit(s, i, "\"", x);
    HasAtChar(s, i, "\"", 0);
    HasAtChar(s, i + 1 + |x|, "\"", 0);
    StrAt(s, i, x);
    assert q[1..|q| - 1] == x;
  }

  /** An input that is one quoted string, scanning through to its last
      character, is an element of the string branch spanning all of it. */
  lemma QuotedElement(s: CString)
    requires 2 <= |s| && s[0] == '"' && ClosesAt(s, 0, |s| - 1)
    ensures Element(s, 0) == Ast(0, |s|, 0, "element", [Ast(0, |s|, |s| - 1, "string", [], s)], "")
  {
    QuotedMatch(s);
    assert Eval(ElementRule, ElementRule.rules[2], s, 0, 0) == StrMatch(s, 0);
    assert At(s, 0) == '"';
    ElementChoice(s, 0, 2);
  }

  /** An array item or an object item: its head, then the blanks after it
      up to the next non-blank character. */
  lemma TrailedAt(g: Rule, s: CString, p: nat, b: nat, h: nat, w: string, e: nat)
    requires g == ItemRule || g == PairRule
    requires b < p < |s|
    requires var head := Eval(ElementRule, g.rules[0], s, p, b); !IsFail(head) && p + head.length == h && p <= h
    requires Trailed(s, h, w, e)
    ensures Eval(ElementRule, g, s, p, b) ==
      Ast(p, e - p, p, "", [Eval(ElementRule, g.rules[0], s, p, b), Ast(h, |w|, e, "ws", [], "")], "")
  {
    var E := ElementRule;
    var f := Sub(E, g, s, b);
    assert Eval(E, g, s, p, b) == AllOf(f, 2, p, "");
    SubIsEval(E, g, s, b, 0, p);
    SubIsEval(E, g, s, b, 1, h);
    WsExact(s, h, w);
    AllOfTwo(f, p, "", h);
  }

  /** No array item starts at a closing bracket. */
  lemma ItemFailsAtClose(s: CString, p: nat, b: nat)
    requires b < p < |s| && (s[p] == ']' || s[p] == '}')
    ensures IsFail(Eval(ElementRule, ItemRule, s, p, b))
  {
    var E := ElementRule;
    var f := Sub(E, ItemRule, s, b);
    assert Eval(E, ItemRule, s, p, b) == AllOf(f, 2, p, "");
    SubIsEval(E, ItemRule, s, b, 0, p);
    LazyIsElement(s, p, b);
    ElementAtClose(s, p);
    AllFirstFails(f, 2, p, "");
  }

  /** The repetition of array items stops at a closing bracket. */
  lemma ItemRunnerStops(f: Runner, s: CString, p: nat, b: nat, k: nat)
    requires IsRunner(f, Many(ItemRule, ""), s, b)
    requires b < p < |s| && s[p] == ']'
    ensures IsFail(f(k, p))
  {
    IsRunnerDef(f, Many(ItemRule, ""), s, b);
    assert f(k, p) == Sub(ElementRule, Many(ItemRule, ""), s, b)(k, p);
    SubIsEval(ElementRule, Many(ItemRule, ""), s, b, k, p);
    ItemFailsAtClose(s, p, b);
  }

  /** The repetition of object items stops at a closing brace. */
  lemma PairRunnerStops(f: Runner, s: CString, p: nat, b: nat, k: nat)
    requires IsRunner(f, Many(PairRule, ""), s, b)
    requires b < p < |s| && s[p] == '}'
    ensures IsFail(f(k, p))
  {
    IsRunnerDef(f, Many(PairRule, ""), s, b);
    assert f(k, p) == Sub(ElementRule, Many(PairRule, ""), s, b)(k, p);
    SubIsEval(ElementRule, Many(PairRule, ""), s, b, k, p);
    PairFailsAtClose(s, p, b);
  }

  /** No object item starts at a closing brace. */
  lemma PairFailsAtClose(s: CString, p: nat, b: nat)
    requires b < p < |s| && s[p] == '}'
    ensures IsFail(Eval(ElementRule, PairRule, s, p, b))
  {
    var E := ElementRule;
    var f := Sub(E, PairRule, s, b);
    var fm := Sub(E, MemberRule, s, b);
    assert Eval(E, PairRule, s, p, b) == AllOf(f, 2, p, "");
    assert Eval(E, MemberRule, s, p, b) == AllOf(fm, 5, p, "");
    SubIsEval(E, PairRule, s, b, 0, p);
    SubIsEval(E, MemberRule, s, b, 0, p);
    AllFirstFails(fm, 5, p, "");
    AllFirstFails(f, 2, p, "");
  }

  /** What the first three sub-rules of `member` match in the encoder's
      layout: the quoted key, no blanks, and the colon. */
  lemma MemberHead(s: CString, p: nat, b: nat, key: string)
    requires b <= p && Clean(key) && HasAt(s, p, "\"" + key + "\"") && HasAt(s, p + |key| + 2, ":")
    ensures var f := Sub(ElementRule, MemberRule, s, b); var kq := p + |key| + 2;
      && f(0, p) == Ast(p, |key| + 2, p + |key| + 1, "string", [], "\"" + key + "\"")
      && f(1, kq) == Ast(kq, 0, kq, "ws", [], "")
      && f(2, kq) == Ast(kq, 1, kq, "", [], ":")
  {
    var E := ElementRule;
    var kq := p + |key| + 2;
    StringAt(key, s, p);
    HasAtChar(s, kq, ":", 0);
    WsNone(s, kq);
    TokenAt(":", "", s, kq);
    SubIsEval(E, MemberRule, s, b, 0, p);
    SubIsEval(E, MemberRule, s, b, 1, kq);
    SubIsEval(E, MemberRule, s, b, 2, kq);
  }

  /** What the last two sub-rules of `member` match in the encoder's
      layout: the line break and indentation, then the value. */
  lemma MemberTail(s: CString, p: nat, b: nat, key: string, tab: string, q: nat)
    requires Spaces(tab) && b < p && HasAt(s, p + |key| + 3, "\n" + tab)
    requires q == p + |key| + 4 + |tab| && q < |s| && !IsWs(s[q])
    ensures var f := Sub(ElementRule, MemberRule, s, b);
      && f(3, p + |key| + 3) == Ast(p + |key| + 3, 1 + |tab|, q, "ws", [], "")
      && f(4, q) == Element(s, q)
  {
    var E := ElementRule;
    SpacesAreWs(tab);
    WsBreak(s, p + |key| + 3, tab, q);
    LazyIsElement(s, q, b);
    SubIsEval(E, MemberRule, s, b, 3, p + |key| + 3);
    SubIsEval(E, MemberRule, s, b, 4, q);
  }

  /** An object member as the encoder writes it: the quoted key, the
      colon right after it, a line break and indentation, then a value. */
  lemma MemberAt(s: CString, p: nat, b: nat, key: string, tab: string, len: nat)
    requires Clean(key) && Spaces(tab) && b < p
    requires HasAt(s, p, "\"" + key + "\"") && HasAt(s, p + |key| + 2, ":")
    requires HasAt(s, p + |key| + 3, "\n" + tab)
    requires var q := p + |key| + 4 + |tab|;
      q < |s| && !IsWs(s[q]) && !IsFail(Element(s, q)) && Element(s, q).length == len
    ensures var q := p + |key| + 4 + |tab|; var mem := Eval(ElementRule, MemberRule, s, p, b);
      && !IsFail(mem) && mem.length == q + len - p && |mem.data| == 5
      && mem.data[0].text == "\"" + key + "\"" && mem.data[4] == Element(s, q)
  {
    var f := Sub(ElementRule, MemberRule, s, b);
    var q := p + |key| + 4 + |tab|;
    MemberHead(s, p, b, key);
    MemberTail(s, p, b, key, tab, q);
    AllOfFive(f, p, "", p + |key| + 2, p + |key| + 2, p + |key| + 3, q);
    assert Eval(ElementRule, MemberRule, s, p, b) == AllOf(f, 5, p, "");
  }

  /** The shape shared by the array and the object rule: an opening
      literal, blanks, a repetition, blanks and a closing literal. */
  predicate Bracketed(g: Rule)
  {
    && g.All? && |g.rules| == 5 && g.rules[1] == Ws && g.rules[3] == Ws
    && g.rules[2].Many? && g.rules[2].tag == ""
    && g.rules[0].Token? && g.rules[0].tag == "" && |g.rules[0].text| == 1
    && g.rules[4].Token? && g.rules[4].tag == "" && |g.rules[4].text| == 1 && !IsWs(g.rules[4].text[0])
  }

  /** What the first three sub-rules of a bracketed rule match in the
      encoder's layout: the opening character, the line break with the
      blanks after it, and the repetition. */
  lemma BracketOpen(g: Rule, s: CString, i: nat, pad: string)
    requires Bracketed(g)
    requires HasAt(s, i, g.rules[0].text) && HasAt(s, i + 1, "\n" + pad) && AllWs(pad)
    requires i + 2 + |pad| < |s| && !IsWs(s[i + 2 + |pad|])
    ensures var f := Sub(ElementRule, g, s, i);
      && f(0, i) == Ast(i, 1, i, "", [], g.rules[0].text)
      && f(1, i + 1) == Ast(i + 1, 1 + |pad|, i + 2 + |pad|, "ws", [], "")
  {
    TokenAt(g.rules[0].text, "", s, i);
    WsBreak(s, i + 1, pad, i + 2 + |pad|);
    SubIsEval(ElementRule, g, s, i, 0, i);
    SubIsEval(ElementRule, g, s, i, 1, i + 1);
  }

  /** The repetition inside a bracketed rule succeeds, spanning and
      keeping what its loop did. */
  lemma BracketMany(g: Rule, s: CString, i: nat, p2: nat, c: nat)
    requires Bracketed(g) && i <= p2 <= |s| && ManyLoop(Sub(ElementRule, g.rules[2], s, i), |s|, 0, p2).end == c
    ensures var f := Sub(ElementRule, g, s, i);
      && !IsFail(f(2, p2)) && p2 + f(2, p2).length == c && p2 <= c
      && f(2, p2).data == ManyLoop(Sub(ElementRule, g.rules[2], s, i), |s|, 0, p2).items
  {
    SubIsEval(ElementRule, g, s, i, 2, p2);
    ManyOfRun(Sub(ElementRule, g.rules[2], s, i), |s|, p2, "");
  }

  /** What the last two sub-rules of a bracketed rule match at the
      closing character: no blanks, then the character. */
  lemma BracketClose(g: Rule, s: CString, i: nat, c: nat)
    requires Bracketed(g) && i <= c && HasAt(s, c, g.rules[4].text)
    ensures var f := Sub(ElementRule, g, s, i);
      && f(3, c) == Ast(c, 0, c, "ws", [], "")
      && f(4, c) == Ast(c, 1, c, "", [], g.rules[4].text)
  {
    var E := ElementRule;
    var close := g.rules[4].text;
    HasAtChar(s, c, close, 0);
    WsNone(s, c);
    TokenAt(close, "", s, c);
    SubIsEval(E, g, s, i, 3, c);
    SubIsEval(E, g, s, i, 4, c);
  }

  /** An array or an object as the encoder writes it: the opening
      character, a line break and the blanks before the first entry, the
      repetition of entries up to the closing character, which stands
      right after the repetition. */
  lemma BracketedAt(g: Rule, s: CString, i: nat, pad: string, c: nat)
    requires Bracketed(g)
    requires HasAt(s, i, g.rules[0].text) && HasAt(s, i + 1, "\n" + pad) && AllWs(pad)
    requires i + 2 + |pad| < |s| && !IsWs(s[i + 2 + |pad|])
    requires ManyLoop(Sub(ElementRule, g.rules[2], s, i), |s|, 0, i + 2 + |pad|).end == c
    requires HasAt(s, c, g.rules[4].text)
    ensures var d := Eval(ElementRule, g, s, i, i);
      && !IsFail(d) && d.tag == g.tag && d.length == c + 1 - i && |d.data| == 5
      && d.data[2].data == ManyLoop(Sub(ElementRule, g.rules[2], s, i), |s|, 0, i + 2 + |pad|).items
  {
    var f := Sub(ElementRule, g, s, i);
    var p2 := i + 2 + |pad|;
    BracketOpen(g, s, i, pad);
    BracketMany(g, s, i, p2, c);
    BracketClose(g, s, i, c);
    EvalAll(ElementRule, g, s, i, i);
    AllOfBracketed(f, i, g.tag, g.rules[0].text, g.rules[4].text, p2, c,
      ManyLoop(Sub(ElementRule, g.rules[2], s, i), |s|, 0, p2).items);
  }
}
