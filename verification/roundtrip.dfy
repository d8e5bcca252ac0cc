/** Reading the encoder's text back: every value the encoder writes
    faithfully is parsed by `element` over exactly the text written for it,
    and the parse decodes to the value again. */
module RoundTrip {
  import opened MatchResult
  import opened Combinators
  import opened Peg
  import opened Grammar
  import opened OrderedMap
  import opened Json
  import opened Decoder
  import opened Encoder
  import opened Layout
  import opened ParseAt
  import opened EncodedText

  /** An array item decodes to `x`: its first result is an element that
      decodes to `x`. */
  predicate ItemGives(it: Ast, x: Value)
  {
    |it.data| > 0 && DecodeElement(it.data[0]) == Some(x)
  }

  /** An object item decodes to entry `e`: its member's key text unquotes
      to the key and its value decodes to the entry's value. */
  predicate PairGives(pr: Ast, e: Entry<Value>)
  {
    && |pr.data| > 0 && |pr.data[0].data| >= 5
    && Unquote(pr.data[0].data[0].text) == Some(e.key)
    && DecodeElement(pr.data[0].data[4]) == Some(e.val)
  }

  /** The items from the `j`-th on of a repetition over an array: one per
      element from `xs[j]` on, each decoding to its element. */
  predicate ItemsGive(items: seq<Ast>, xs: seq<Value>, j: nat)
  {
    |items| == |xs| - j && forall m :: 0 <= m < |items| ==> ItemGives(items[m], xs[j + m])
  }

  /** The items from the `j`-th on of a repetition over an object: one per
      entry from `es[j]` on, each decoding to its entry. */
  predicate PairsGive(items: seq<Ast>, es: seq<Entry<Value>>, j: nat)
  {
    |items| == |es| - j && forall m :: 0 <= m < |items| ==> PairGives(items[m], es[j + m])
  }

  /** The repetition of `f` from attempt `k` at `p` ends at `end` and keeps
      one item per element from `xs[j]` on, each decoding to its element. */
  predicate ItemsRun(f: Runner, size: int, k: nat, p: int, end: int, xs: seq<Value>, j: nat)
  {
    var run := ManyLoop(f, size, k, p);
    run.end == end && ItemsGive(run.items, xs, j)
  }

  /** The repetition of `f` from attempt `k` at `p` ends at `end` and keeps
      one item per entry from `es[j]` on, each decoding to its entry. */
  predicate PairsRun(f: Runner, size: int, k: nat, p: int, end: int, es: seq<Entry<Value>>, j: nat)
  {
    var run := ManyLoop(f, size, k, p);
    run.end == end && PairsGive(run.items, es, j)
  }


  /** Dropping the quotes the encoder puts around a string or a key gives
      it back. */
  lemma UnquoteQuoted(x: string)
    ensures Unquote("\"" + x + "\"") == Some(x)
  {
    var q := "\"" + x + "\"";
    assert q[1..|q| - 1] == x;
  }

  /** The text of an encodable value, wherever it stands, is parsed by
      `element` over exactly its own length, and decodes to the value. */
  lemma ParseValue(v: Value, T: string, s: CString, i: nat)
    requires Encodable(v) && Spaces(T) && HasAt(s, i, Core(v, T))
    ensures var el := Element(s, i);
      && !IsFail(el) && el.length == |Core(v, T)| && DecodeElement(el) == Some(v)
    decreases v, 4
  {
    CoreStart(v, T);
    HasAtChar(s, i, Core(v, T), 0);
    match v
    case Boolean(bv) =>
      BooleanAt(bv, s, i);
      ElementChoice(s, i, 3);
    case String(x) =>
      StringAt(x, s, i);
      ElementChoice(s, i, 2);
    case Array(_) =>
      ParseArray(v, T, s, i);
      ElementChoice(s, i, 0);
    case Object(_) =>
      ParseObject(v, T, s, i);
      ElementChoice(s, i, 1);
  }


  /** Item `r`, tried at `p`, matched up to `e` and decodes to `x`. */
  predicate ItemRan(r: Ast, p: int, e: int, size: int, x: Value)
  {
    !Stops(r, p, size) && p + r.length == e && ItemGives(r, x)
  }

  /** The item rule at the text of an encodable value followed by blanks
      matches the value and the blanks, and decodes to the value. */
  lemma ItemParse(f: Runner, x: Value, T4: string, s: CString, b: nat, p: nat, w: string, e: nat, k: nat)
    requires IsRunner(f, Many(ItemRule, ""), s, b)
    requires b < p && ItemLaid(s, p, x, T4, w, e)
    ensures ItemRan(f(k, p), p, e, |s|, x)
    decreases x, 6
  {
    IsRunnerDef(f, Many(ItemRule, ""), s, b);
    assert f(k, p) == Sub(ElementRule, Many(ItemRule, ""), s, b)(k, p);
    SubIsEval(ElementRule, Many(ItemRule, ""), s, b, k, p);
    ItemEval(x, T4, s, b, p, w, e);
  }

  /** The item rule itself, at the text of a value followed by blanks. */
  lemma ItemEval(x: Value, T4: string, s: CString, b: nat, p: nat, w: string, e: nat)
    requires b < p && ItemLaid(s, p, x, T4, w, e)
    ensures ItemRan(Eval(ElementRule, ItemRule, s, p, b), p, e, |s|, x)
    decreases x, 5
  {
    CoreStart(x, T4);
    ParseValue(x, T4, s, p);
    LazyIsElement(s, p, b);
    TrailedAt(ItemRule, s, p, b, p + |Core(x, T4)|, w, e);
  }

  /** A repetition that keeps one item decoding to `xs[j]` and then, from
      where that item ended, one item per later element, keeps one item per
      element from `xs[j]` on. */
  lemma ItemsCons(f: Runner, size: int, k: nat, p: int, e: int, end: int, xs: seq<Value>, j: nat)
    requires j < |xs| && ItemRan(f(k, p), p, e, size, xs[j])
    requires ItemsRun(f, size, k + 1, e, end, xs, j + 1)
    ensures ItemsRun(f, size, k, p, end, xs, j)
  {
    var rest := ManyLoop(f, size, k + 1, e).items;
    ManyStep(f, size, k, p, e);
    forall m | 0 <= m < |xs| - j
      ensures ItemGives(([f(k, p)] + rest)[m], xs[j + m])
    {
      if m > 0 {
        assert ([f(k, p)] + rest)[m] == rest[m - 1];
      }
    }
  }

  /** A repetition whose first attempt fails keeps nothing and ends where
      it started. */
  lemma ManyStops(f: Runner, size: int, k: nat, p: int)
    requires IsFail(f(k, p))
    ensures ManyLoop(f, size, k, p).items == [] && ManyLoop(f, size, k, p).end == p
  {
  }

  /** One step of the repetition over the array text of `v`: the item
      rule at the `j`-th item matches the item, its comma and the blanks up
      to the next item or the bracket, decodes to the item, and leaves the
      rest of the array text. */
  lemma ItemStep(f: Runner, v: Value, T: string, s: CString, b: nat, j: nat, q0: nat, k: nat)
    requires IsRunner(f, Many(ItemRule, ""), s, b)
    requires ItemsAt(s, q0, v, T, j) && j < |v.items| && b < q0
    ensures var p := q0 + |ItemsPad(v, T, j)|; var q1 := q0 + |Items(v, T, j)| - |Items(v, T, j + 1)|;
      && b < q1 && ItemsAt(s, q1, v, T, j + 1)
      && ItemRan(f(k, p), p, q1 + |ItemsPad(v, T, j + 1)|, |s|, v.items[j])
    decreases v, 0
  {
    var q1 := q0 + |Items(v, T, j)| - |Items(v, T, j + 1)|;
    var pad := ItemsPad(v, T, j + 1);
    ItemLayout(v, T, s, q0, j);
    ItemParse(f, v.items[j], T + Indent, s, b, q0 + |ItemsPad(v, T, j)|, Comma(j + 1 < |v.items|) + pad, q1 + |pad|, k);
  }

  /** The repetition over the array text of `v` after its last item keeps
      nothing and stops at the blanks before the closing bracket. */
  lemma ItemsDone(f: Runner, v: Value, T: string, s: CString, b: nat, q0: nat, k: nat)
    requires IsRunner(f, Many(ItemRule, ""), s, b)
    requires v.Array? && ItemsAt(s, q0, v, T, |v.items|) && b < q0
    ensures ItemsRun(f, |s|, k, q0 + |ItemsPad(v, T, |v.items|)|, q0 + |Items(v, T, |v.items|)| + |T|, v.items, |v.items|)
  {
    ItemsEnd(v, T, s, q0);
    ItemRunnerStops(f, s, q0 + |T|, b, k);
    ManyStops(f, |s|, k, q0 + |T|);
  }

  /** The repetition of items over the array text of `v` from its `j`-th
      item on keeps one item per remaining element, each decoding to that
      element, and stops at the blanks before the closing bracket. */
  lemma {:induction false} ItemsLoop(f: Runner, v: Value, T: string, s: CString, b: nat, j: nat, q0: nat, k: nat)
    requires IsRunner(f, Many(ItemRule, ""), s, b)
    requires ItemsAt(s, q0, v, T, j) && b < q0
    ensures ItemsRun(f, |s|, k, q0 + |ItemsPad(v, T, j)|, q0 + |Items(v, T, j)| + |T|, v.items, j)
    decreases v, 1, |v.items| - j
  {
    if j == |v.items| {
      ItemsDone(f, v, T, s, b, q0, k);
    } else {
      var q1 := q0 + |Items(v, T, j)| - |Items(v, T, j + 1)|;
      ItemStep(f, v, T, s, b, j, q0, k);
      ItemsLoop(f, v, T, s, b, j + 1, q1, k + 1);
      ItemsCons(f, |s|, k, q0 + |ItemsPad(v, T, j)|, q1 + |ItemsPad(v, T, j + 1)|, q1 + |Items(v, T, j + 1)| + |T|, v.items, j);
    }
  }

  lemma {:induction false} DecodeItemsGive(d: Ast, xs: seq<Value>, j: nat)
    requires 3 <= |d.data| && ItemsGive(d.data[2].data, xs, 0) && j <= |xs|
    ensures DecodeItems(d, j) == Some(xs[j..])
    decreases |xs| - j
  {
    if j < |xs| {
      assert ItemGives(d.data[2].data[j], xs[j]);
      DecodeItemsGive(d, xs, j + 1);
      assert xs[j..] == [xs[j]] + xs[j + 1..];
    }
  }


  /** The repetition of items over the array text of `v` ends at the closing
      bracket, each item decoding to its element. */
  lemma ArrayRun(v: Value, T: string, s: CString, i: nat)
    requires v.Array? && Encodable(v) && Spaces(T) && HasAt(s, i, Core(v, T))
    ensures var run := ManyLoop(Sub(ElementRule, Many(ItemRule, ""), s, i), |s|, 0, i + 2 + |ItemsPad(v, T, 0)|);
      run.end == i + 2 + |Items(v, T, 0)| + |T| && ItemsGive(run.items, v.items, 0)
    decreases v, 2
  {
    ArrayFrame(v, T, s, i);
    SubIsRunner(Many(ItemRule, ""), s, i);
    ItemsLoop(Sub(ElementRule, Many(ItemRule, ""), s, i), v, T, s, i, 0, i + 2, 0);
  }

  /** The text of an encodable array is parsed by the array rule over its
      whole length and decodes to the array. */
  lemma ParseArray(v: Value, T: string, s: CString, i: nat)
    requires v.Array? && Encodable(v) && Spaces(T) && HasAt(s, i, Core(v, T))
    ensures var d := Eval(ElementRule, ArrayRule, s, i, i);
      && !IsFail(d) && d.tag == "array" && d.length == |Core(v, T)| && DecodeArray(d) == Some(v)
    decreases v, 3
  {
    ArrayOpen(v, T, s, i);
    ArrayRun(v, T, s, i);
    BracketedAt(ArrayRule, s, i, ItemsPad(v, T, 0), i + 2 + |Items(v, T, 0)| + |T|);
    var d := Eval(ElementRule, ArrayRule, s, i, i);
    DecodeItemsGive(d, v.items, 0);
    assert v.items[0..] == v.items;
  }

  /** Item `r`, tried at `p`, matched up to `e` and decodes to entry `en`. */
  predicate PairRan(r: Ast, p: int, e: int, size: int, en: Entry<Value>)
  {
    !Stops(r, p, size) && p + r.length == e && PairGives(r, en)
  }

  /** The member rule at the text of an entry matches the whole of it;
      its key text unquotes to the key and its value decodes to the
      entry's value. */
  lemma MemberEval(s: CString, p: nat, b: nat, en: Entry<Value>, T8: string)
    requires b < p && MemberWritten(s, p, en, T8)
    ensures var mem := Eval(ElementRule, MemberRule, s, p, b);
      && !IsFail(mem) && mem.length == |en.key| + 4 + |T8| + |Core(en.val, T8)| && |mem.data| == 5
      && Unquote(mem.data[0].text) == Some(en.key) && DecodeElement(mem.data[4]) == Some(en.val)
    decreases en.val, 5
  {
    var q := p + |en.key| + 4 + |T8|;
    CoreStart(en.val, T8);
    HasAtChar(s, q, Core(en.val, T8), 0);
    ParseValue(en.val, T8, s, q);
    MemberAt(s, p, b, en.key, T8, |Core(en.val, T8)|);
    UnquoteQuoted(en.key);
  }

  /** The item rule at the text of a member followed by blanks matches
      the member and the blanks, and decodes to the entry. */
  lemma PairParse(f: Runner, en: Entry<Value>, T8: string, s: CString, b: nat, p: nat, w: string, e: nat, k: nat)
    requires IsRunner(f, Many(PairRule, ""), s, b)
    requires b < p && MemberLaid(s, p, en, T8, w, e)
    ensures PairRan(f(k, p), p, e, |s|, en)
    decreases en.val, 7
  {
    IsRunnerDef(f, Many(PairRule, ""), s, b);
    assert f(k, p) == Sub(ElementRule, Many(PairRule, ""), s, b)(k, p);
    SubIsEval(ElementRule, Many(PairRule, ""), s, b, k, p);
    PairEval(en, T8, s, b, p, w, e);
  }

  /** The item rule itself, at the text of a member followed by blanks. */
  lemma PairEval(en: Entry<Value>, T8: string, s: CString, b: nat, p: nat, w: string, e: nat)
    requires b < p && MemberLaid(s, p, en, T8, w, e)
    ensures PairRan(Eval(ElementRule, PairRule, s, p, b), p, e, |s|, en)
    decreases en.val, 6
  {
    MemberEval(s, p, b, en, T8);
    TrailedAt(PairRule, s, p, b, p + |en.key| + 4 + |T8| + |Core(en.val, T8)|, w, e);
  }

  /** `ItemsCons` for the items of an object. */
  lemma PairsCons(f: Runner, size: int, k: nat, p: int, e: int, end: int, es: seq<Entry<Value>>, j: nat)
    requires j < |es| && PairRan(f(k, p), p, e, size, es[j])
    requires PairsRun(f, size, k + 1, e, end, es, j + 1)
    ensures PairsRun(f, size, k, p, end, es, j)
  {
    var rest := ManyLoop(f, size, k + 1, e).items;
    ManyStep(f, size, k, p, e);
    forall m | 0 <= m < |es| - j
      ensures PairGives(([f(k, p)] + rest)[m], es[j + m])
    {
      if m > 0 {
        assert ([f(k, p)] + rest)[m] == rest[m - 1];
      }
    }
  }

  /** One step of the repetition over the object text of `v`: the item
      rule at the `j`-th member matches the member, its comma and the blanks
      up to the next member or the brace, decodes to the entry, and leaves
      the rest of the object text. */
  lemma PairStep(f: Runner, v: Value, T: string, s: CString, b: nat, j: nat, q0: nat, k: nat)
    requires IsRunner(f, Many(PairRule, ""), s, b)
    requires MembersAt(s, q0, v, T, j) && j < |v.fields.entries| && b < q0
    ensures var p := q0 + |MembersPad(v, T, j)|; var q1 := q0 + |Members(v, T, j)| - |Members(v, T, j + 1)|;
      && b < q1 && MembersAt(s, q1, v, T, j + 1)
      && PairRan(f(k, p), p, q1 + |MembersPad(v, T, j + 1)|, |s|, v.fields.entries[j])
    decreases v, 0
  {
    var q1 := q0 + |Members(v, T, j)| - |Members(v, T, j + 1)|;
    var pad := MembersPad(v, T, j + 1);
    MemberLayout(v, T, s, q0, j);
    PairParse(f, v.fields.entries[j], T + Indent8, s, b, q0 + |MembersPad(v, T, j)|,
              Comma(j + 1 < |v.fields.entries|) + pad, q1 + |pad|, k);
  }

  /** The repetition over the object text of `v` after its last member
      keeps nothing and stops at the blanks before the closing brace. */
  lemma PairsDone(f: Runner, v: Value, T: string, s: CString, b: nat, q0: nat, k: nat)
    requires IsRunner(f, Many(PairRule, ""), s, b)
    requires v.Object? && MembersAt(s, q0, v, T, |v.fields.entries|) && b < q0
    ensures PairsRun(f, |s|, k, q0 + |MembersPad(v, T, |v.fields.entries|)|, q0 + |Members(v, T, |v.fields.entries|)| + |T|,
                     v.fields.entries, |v.fields.entries|)
  {
    MembersEnd(v, T, s, q0);
    PairRunnerStops(f, s, q0 + |T|, b, k);
    ManyStops(f, |s|, k, q0 + |T|);
  }

  /** The repetition of items over the object text of `v` from its `j`-th
      member on keeps one item per remaining entry, each decoding to that
      entry, and stops at the blanks before the closing brace. */
  lemma {:induction false} PairsLoop(f: Runner, v: Value, T: string, s: CString, b: nat, j: nat, q0: nat, k: nat)
    requires IsRunner(f, Many(PairRule, ""), s, b)
    requires MembersAt(s, q0, v, T, j) && b < q0
    ensures PairsRun(f, |s|, k, q0 + |MembersPad(v, T, j)|, q0 + |Members(v, T, j)| + |T|, v.fields.entries, j)
    decreases v, 1, |v.fields.entries| - j
  {
    if j == |v.fields.entries| {
      PairsDone(f, v, T, s, b, q0, k);
    } else {
      var q1 := q0 + |Members(v, T, j)| - |Members(v, T, j + 1)|;
      PairStep(f, v, T, s, b, j, q0, k);
      PairsLoop(f, v, T, s, b, j + 1, q1, k + 1);
      PairsCons(f, |s|, k, q0 + |MembersPad(v, T, j)|, q1 + |MembersPad(v, T, j + 1)|, q1 + |Members(v, T, j + 1)| + |T|,
                v.fields.entries, j);
    }
  }

  lemma {:induction false} DecodeMembersGive(d: Ast, es: seq<Entry<Value>>, j: nat)
    requires 3 <= |d.data| && PairsGive(d.data[2].data, es, 0) && j <= |es|
    ensures DecodeMembers(d, j) == Some(es[j..])
    decreases |es| - j
  {
    if j < |es| {
      assert PairGives(d.data[2].data[j], es[j]);
      DecodeMembersGive(d, es, j + 1);
      assert es[j..] == [Entry(es[j].key, es[j].val)] + es[j + 1..];
    }
  }


  /** The repetition of items over the object text of `v` ends at the closing
      brace, each item decoding to its entry. */
  lemma ObjectRun(v: Value, T: string, s: CString, i: nat)
    requires v.Object? && Encodable(v) && Spaces(T) && HasAt(s, i, Core(v, T))
    ensures var run := ManyLoop(Sub(ElementRule, Many(PairRule, ""), s, i), |s|, 0, i + 2 + |MembersPad(v, T, 0)|);
      run.end == i + 2 + |Members(v, T, 0)| + |T| && PairsGive(run.items, v.fields.entries, 0)
    decreases v, 2
  {
    ObjectFrame(v, T, s, i);
    SubIsRunner(Many(PairRule, ""), s, i);
    PairsLoop(Sub(ElementRule, Many(PairRule, ""), s, i), v, T, s, i, 0, i + 2, 0);
  }

  /** The text of an encodable object is parsed by the object rule over its
      whole length and decodes to the object, entries in the same order. */
  lemma ParseObject(v: Value, T: string, s: CString, i: nat)
    requires v.Object? && Encodable(v) && Spaces(T) && HasAt(s, i, Core(v, T))
    ensures var d := Eval(ElementRule, ObjectRule, s, i, i);
      && !IsFail(d) && d.tag == "object" && d.length == |Core(v, T)| && DecodeObject(d) == Some(v)
    decreases v, 3
  {
    ObjectOpen(v, T, s, i);
    ObjectRun(v, T, s, i);
    BracketedAt(ObjectRule, s, i, MembersPad(v, T, 0), i + 2 + |Members(v, T, 0)| + |T|);
    var d := Eval(ElementRule, ObjectRule, s, i, i);
    DecodeMembersGive(d, v.fields.entries, 0);
    assert v.fields.entries[0..] == v.fields.entries;
  }
}
