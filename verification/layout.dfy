/** Facts about the text the encoder writes, and about reading it back
    with the terminal rules: which values it writes faithfully, where the
    blanks between values lie, and which character each value starts
    with. */
module Layout {
  import opened MatchResult
  import opened Matchers
  import opened Json
  import opened Encoder

  /** The encoder writes strings and keys between quotes without escaping,
      so only text without quotes, backslashes and terminators reads back. */
  predicate Clean(x: string)
  {
    forall k :: 0 <= k < |x| ==> x[k] != '"' && x[k] != '\\' && x[k] != NUL
  }

  /** Values whose encoding decodes to themselves: no numbers (printed
      through `double`), and only clean strings and keys. */
  predicate Encodable(v: Value)
  {
    match v
    case Boolean(_) => true
    case Number(_) => false
    case String(x) => Clean(x)
    case Array(xs) => forall k :: 0 <= k < |xs| ==> Encodable(xs[k])
    case Object(h) =>
      forall k :: 0 <= k < |h.entries| ==> Clean(h.entries[k].key) && Encodable(h.entries[k].val)
  }

  /** Indentation: spaces only. */
  predicate Spaces(t: string)
  {
    forall k :: 0 <= k < |t| ==> t[k] == ' '
  }

  /** Every character is skipped by the whitespace rule. */
  predicate AllWs(w: string)
  {
    forall k :: 0 <= k < |w| ==> IsWs(w[k])
  }

  /** The input holds `w` at offset `i`. The comparison of the slice sits
      two recursive calls down, in `HasAtBy`, deeper than the verifier
      unfolds on its own, so that a proof sees it only where it asks for it
      through `HasAtDef`; everywhere else `HasAt` is used through the
      lemmas below. */
  predicate HasAt(s: CString, i: nat, w: string)
  {
    i + |w| <= |s| && HasAtBy(s, i, w, |w| + 2)
  }

  predicate HasAtBy(s: CString, i: nat, w: string, n: nat)
    decreases n
  {
    if n <= |w| then i + |w| <= |s| && s[i..i + |w|] == w else HasAtBy(s, i, w, n - 1)
  }

  lemma HasAtDef(s: CString, i: nat, w: string)
    ensures HasAt(s, i, w) <==> i + |w| <= |s| && s[i..i + |w|] == w
  {
    assert HasAtBy(s, i, w, |w| + 2) == HasAtBy(s, i, w, |w| + 1);
    assert HasAtBy(s, i, w, |w| + 1) == HasAtBy(s, i, w, |w|);
  }

  lemma HasAtSplit(s: CString, i: nat, a: string, b: string)
    requires HasAt(s, i, a + b)
    ensures HasAt(s, i, a) && HasAt(s, i + |a|, b)
  {
    HasAtDef(s, i, a + b);
    HasAtDef(s, i, a);
    HasAtDef(s, i + |a|, b);
    assert s[i..i + |a|] == s[i..i + |a + b|][..|a|];
    assert (a + b)[..|a|] == a;
    assert s[i + |a|..i + |a| + |b|] == s[i..i + |a + b|][|a|..];
    assert (a + b)[|a|..] == b;
  }

  lemma HasAtJoin(s: CString, i: nat, a: string, b: string)
    requires HasAt(s, i, a) && HasAt(s, i + |a|, b)
    ensures HasAt(s, i, a + b)
  {
    HasAtDef(s, i, a + b);
    HasAtDef(s, i, a);
    HasAtDef(s, i + |a|, b);
    assert s[i..i + |a + b|] == s[i..i + |a|] + s[i + |a|..i + |a| + |b|];
  }

  lemma HasAtChar(s: CString, i: nat, w: string, k: nat)
    requires HasAt(s, i, w) && k < |w|
    ensures i + |w| <= |s| && s[i + k] == w[k]
  {
    HasAtDef(s, i, w);
    assert s[i..i + |w|][k] == s[i + k];
  }

  /** `HasAtSplit` with the offset of the second part given by the caller. */
  lemma HasAtSplitAt(s: CString, i: nat, a: string, b: string, j: nat)
    requires HasAt(s, i, a + b) && j == i + |a|
    ensures HasAt(s, i, a) && HasAt(s, j, b)
  {
    HasAtSplit(s, i, a, b);
  }

  /** `HasAtJoin` with the offset of the second part given by the caller. */
  lemma HasAtJoinAt(s: CString, i: nat, a: string, b: string, j: nat)
    requires HasAt(s, i, a) && HasAt(s, j, b) && j == i + |a|
    ensures HasAt(s, i, a + b)
  {
    HasAtJoin(s, i, a, b);
  }

  /** Peels the first part off a text that ends with indentation and a
      closing character; the rest starts at `q1`. */
  lemma HasAtPeel(s: CString, q: nat, x: string, rest: string, tab: string, close: string, q1: nat)
    requires HasAt(s, q, ((x + rest) + tab) + close) && q1 == q + |x|
    ensures HasAt(s, q, x) && HasAt(s, q1, (rest + tab) + close)
  {
    HasAtSplit(s, q, (x + rest) + tab, close);
    HasAtSplit(s, q, x + rest, tab);
    HasAtSplit(s, q, x, rest);
    HasAtJoin(s, q + |x|, rest, tab);
    HasAtJoin(s, q + |x|, rest + tab, close);
  }

  /** The three parts of one line the encoder writes: indentation, the
      value's text from `p1` and the line's end from `p2`. */
  lemma HasAtLine(s: CString, q: nat, tab: string, core: string, end: string, p1: nat, p2: nat)
    requires HasAt(s, q, (tab + core) + end) && p1 == q + |tab| && p2 == p1 + |core|
    ensures HasAt(s, q, tab) && HasAt(s, p1, core) && HasAt(s, p2, end)
  {
    HasAtSplit(s, q, tab + core, end);
    HasAtSplit(s, q, tab, core);
  }

  /** The parts of the line the encoder writes for an object key, the
      quoted key starting at `p`. */
  lemma HasAtKey(s: CString, q: nat, tab: string, key: string, p: nat)
    requires HasAt(s, q, (((tab + "\"") + key) + "\":") + "\n") && p == q + |tab|
    ensures && HasAt(s, q, tab) && HasAt(s, p, "\"" + key + "\"")
      && HasAt(s, p + |key| + 2, ":") && HasAt(s, p + |key| + 3, "\n")
  {
    HasAtSplit(s, q, ((tab + "\"") + key) + "\":", "\n");
    HasAtSplit(s, q, (tab + "\"") + key, "\":");
    HasAtSplit(s, q, tab + "\"", key);
    HasAtSplit(s, q, tab, "\"");
    assert "\":" == "\"" + ":";
    HasAtSplit(s, p + 1 + |key|, "\"", ":");
    HasAtJoin(s, p, "\"", key);
    HasAtJoin(s, p, "\"" + key, "\"");
  }

  /** The parts of the two lines the encoder writes for an object member:
      indentation `tab`, the quoted key from `p`, the colon, the line break
      and indentation `tab2`, the value's text from `q` and its comma. */
  lemma HasAtMember(s: CString, q0: nat, tab: string, key: string, tab2: string, core: string, comma: string, p: nat, q: nat)
    requires HasAt(s, q0, ((((tab + "\"") + key) + "\":") + "\n") + ((tab2 + core) + comma))
    requires p == q0 + |tab| && q == p + |key| + 4 + |tab2|
    ensures && HasAt(s, q0, tab) && HasAt(s, p, "\"" + key + "\"") && HasAt(s, p + |key| + 2, ":")
      && HasAt(s, p + |key| + 3, "\n" + tab2) && HasAt(s, q, core) && HasAt(s, q + |core|, comma)
  {
    var A := (((tab + "\"") + key) + "\":") + "\n";
    HasAtSplitAt(s, q0, A, (tab2 + core) + comma, p + |key| + 4);
    HasAtKey(s, q0, tab, key, p);
    HasAtLine(s, p + |key| + 4, tab2, core, comma, q, q + |core|);
    HasAtJoinAt(s, p + |key| + 3, "\n", tab2, p + |key| + 4);
  }

  /** The frame of an array or object text: the opening character and
      line break, the body and indentation from `i + 2`, and the closing
      character at its end. */
  lemma BracketFrame(s: CString, i: nat, open: string, body: string, tab: string, close: string)
    requires |open| == 1 && |close| == 1
    requires HasAt(s, i, ((open + "\n" + body) + tab) + close)
    ensures HasAt(s, i, open) && HasAt(s, i + 1, "\n")
    ensures HasAt(s, i + 2, (body + tab) + close) && HasAt(s, i + 2 + |body| + |tab|, close)
  {
    HasAtPeel(s, i, open + "\n", body, tab, close, i + 2);
    HasAtSplitAt(s, i, open, "\n", i + 1);
    HasAtSplitAt(s, i + 2, body + tab, close, i + 2 + |body| + |tab|);
  }

  lemma AllWsJoin(a: string, b: string)
    requires AllWs(a) && AllWs(b)
    ensures AllWs(a + b)
  {
    forall k | 0 <= k < |a + b|
      ensures IsWs((a + b)[k])
    {
      if k >= |a| {
        assert (a + b)[k] == b[k - |a|];
      }
    }
  }

  /** Blanks between two encoded values are skipped exactly: the
      whitespace rule stops at the next value. */
  lemma WsExact(s: CString, p: nat, w: string)
    requires HasAt(s, p, w) && AllWs(w)
    requires p + |w| < |s| && !IsWs(s[p + |w|])
    ensures WsMatch(s, p) == Ast(p, |w|, p + |w|, "ws", [], "")
  {
    forall k | p <= k < p + |w|
      ensures In(s[k], Blank)
    {
      HasAtChar(s, p, w, k - p);
    }
    SpanEndUnique(s, p, p + |w|, Blank);
  }

  /** No blanks before a character that is not blank. */
  lemma WsNone(s: CString, p: nat)
    requires p < |s| && !IsWs(s[p])
    ensures WsMatch(s, p) == Ast(p, 0, p, "ws", [], "")
  {
    WsExact(s, p, "");
  }

  /** The line break and indentation that open an array or object body
      are skipped exactly. */
  lemma WsBreak(s: CString, p: nat, pad: string, e: nat)
    requires HasAt(s, p, "\n" + pad) && AllWs(pad)
    requires e == p + 1 + |pad| && e < |s| && !IsWs(s[e])
    ensures WsMatch(s, p) == Ast(p, 1 + |pad|, e, "ws", [], "")
  {
    AllWsJoin("\n", pad);
    WsExact(s, p, "\n" + pad);
  }

  /** The input holds blanks `w` at `h`, and the character at `e`, just
      after them, is not blank. */
  predicate Trailed(s: CString, h: nat, w: string, e: nat)
  {
    HasAt(s, h, w) && AllWs(w) && e == h + |w| && e < |s| && !IsWs(s[e])
  }

  /** The input holds indentation `pad` at `q`, and the character just
      after it is not blank. */
  predicate GapAt(s: CString, q: nat, pad: string)
  {
    Spaces(pad) && HasAt(s, q, pad) && q + |pad| < |s| && !IsWs(s[q + |pad|])
  }

  /** A line's end followed by the next line's indentation are blanks up
      to the next value. */
  lemma CommaTrail(s: CString, h: nat, c: bool, pad: string, q: nat, e: nat)
    requires HasAt(s, h, Comma(c)) && q == h + |Comma(c)| && GapAt(s, q, pad) && e == q + |pad|
    ensures Trailed(s, h, Comma(c) + pad, e)
  {
    CommaIsWs(c);
    SpacesAreWs(pad);
    AllWsJoin(Comma(c), pad);
    HasAtJoin(s, h, Comma(c), pad);
  }

  /** A literal is matched where the input holds it. */
  lemma TokenAt(t: string, tag: string, s: CString, i: nat)
    requires HasAt(s, i, t)
    ensures TokenMatch(t, tag, s, i) == Ast(i, |t|, i, tag, [], t)
  {
    HasAtDef(s, i, t);
    TokenSpec(t, tag, s, i);
  }

  /** A clean string between quotes is matched whole, quotes included. */
  lemma StrAt(s: CString, i: nat, x: string)
    requires Clean(x) && i + |x| + 1 < |s| && s[i] == '"' && s[i + |x| + 1] == '"'
    requires HasAt(s, i + 1, x)
    ensures StrMatch(s, i) == Ast(i, |x| + 2, i + |x| + 1, "string", [], s[i..i + |x| + 2])
  {
    var e := i + |x| + 1;
    forall k | i + 1 <= k < e
      ensures s[k] != '"' && s[k] != '\\'
    {
      HasAtChar(s, i + 1, x, k - i - 1);
    }
    StrScanTo(s, i, i + 1, e);
    SubstrIsSlice(s, i, e + 1);
  }

  lemma {:induction false} StrScanTo(s: CString, i: nat, c: nat, e: nat)
    requires i < c <= e < |s| && s[e] == '"'
    requires forall k :: c <= k < e ==> s[k] != '"' && s[k] != '\\'
    ensures StrScan(s, i, c) == Ast(i, e + 1 - i, e, "string", [], Substr(s, i, e + 1))
    decreases e - c
  {
    if c < e {
      StrScanTo(s, i, c + 1, e);
    }
  }

  /** The blanks before the `j`-th element of array `v`, or before the
      closing bracket when there is none. */
  function ItemsPad(v: Value, tab: string, j: nat): string
    requires v.Array?
  {
    if j < |v.items| then tab + Indent else tab
  }

  /** The blanks before the `j`-th member of object `v`, or before the
      closing brace when there is none. */
  function MembersPad(v: Value, tab: string, j: nat): string
    requires v.Object?
  {
    if j < |v.fields.entries| then tab + Indent else tab
  }

  /** An encodable value's text starts with a character that is neither
      blank nor a closing bracket or brace. */
  lemma CoreStart(v: Value, tab: string)
    requires Encodable(v)
    ensures |Core(v, tab)| > 0
    ensures var c := Core(v, tab)[0]; c == '[' || c == '{' || c == '"' || c == 't' || c == 'f'
  {
  }

  lemma SpacesAreWs(t: string)
    requires Spaces(t)
    ensures AllWs(t)
  {
  }

  lemma CommaIsWs(c: bool)
    ensures AllWs(Comma(c))
  {
  }
}
