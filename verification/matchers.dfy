/** The terminal rules of the grammar: a literal token, a whitespace run, a
    number run and a quoted string. Each reads a C string from an offset and
    never looks at or past the terminator except where noted.

    The functions carry only the bounds the engine needs; what each one
    matches is stated by the `...Spec` lemma next to it. */
module Matchers {
  import opened MatchResult

  /** Characters skipped by the whitespace rule. The comma is one of them,
      so list separators are whitespace (unlike section 2 of RFC 8259). */
  predicate IsWs(c: char)
  {
    c == ' ' || c == '\t' || c == '\r' || c == '\n' || c == ','
  }

  /** Characters of a number: any run of digits and dots (unlike section 6
      of RFC 8259, "1.2.3" and "." are numbers here). */
  predicate IsNumChar(c: char)
  {
    ('0' <= c <= '9') || c == '.'
  }

  /** The characters of `s` from `i` up to `e`, copied one by one (the C++
      `str(s, i, e - i)`). */
  function Substr(s: CString, i: nat, e: nat): (x: string)
    requires i <= e <= |s|
    ensures |x| == e - i
    decreases e - i
  {
    if i == e then [] else [s[i]] + Substr(s, i + 1, e)
  }

  lemma {:induction false} SubstrIsSlice(s: CString, i: nat, e: nat)
    requires i <= e <= |s|
    ensures Substr(s, i, e) == s[i..e]
    decreases e - i
  {
    if i < e {
      SubstrIsSlice(s, i + 1, e);
      assert s[i..e] == [s[i]] + s[i + 1..e];
    }
  }

  /** The two character classes that a run is taken over. */
  datatype Class = Blank | Digits

  predicate In(c: char, cls: Class)
  {
    match cls
    case Blank => IsWs(c)
    case Digits => IsNumChar(c)
  }

  /** End of the run of characters of class `p` that starts at `i`. */
  function SpanEnd(s: CString, i: nat, p: Class): (e: nat)
    requires i <= |s|
    ensures i <= e <= |s|
    decreases |s| - i
  {
    if i < |s| && In(s[i], p) then SpanEnd(s, i + 1, p) else i
  }

  /** The run is maximal: every character in it is of class `p`, and the one
      after it is not (or the input ends there). */
  lemma {:induction false} SpanEndSpec(s: CString, i: nat, p: Class)
    requires i <= |s|
    ensures var e := SpanEnd(s, i, p);
      && (forall k :: i <= k < e ==> In(s[k], p))
      && (e == |s| || !In(s[e], p))
    decreases |s| - i
  {
    if i < |s| && In(s[i], p) {
      SpanEndSpec(s, i + 1, p);
    }
  }

  /** Converse of `SpanEndSpec`: a run of class `p` from `i` that is
      followed by a character outside `p`, or by the end, is the maximal
      one. */
  lemma {:induction false} SpanEndUnique(s: CString, i: nat, e: nat, p: Class)
    requires i <= e <= |s|
    requires forall k :: i <= k < e ==> In(s[k], p)
    requires e == |s| || !In(s[e], p)
    ensures SpanEnd(s, i, p) == e
    decreases e - i
  {
    if i < e {
      SpanEndUnique(s, i + 1, e, p);
    }
  }

  /** `t` from its `k`th character on equals the input from `i + k` on:
      the comparison of `t` with the input cut to `|t|` characters before
      the terminator, done character by character. */
  predicate TokenFrom(t: string, s: CString, i: nat, k: nat)
    requires k <= |t|
    decreases |t| - k
  {
    k == |t| || (i + k < |s| && s[i + k] == t[k] && TokenFrom(t, s, i, k + 1))
  }

  lemma {:induction false} TokenFromSpec(t: string, s: CString, i: nat, k: nat)
    requires k <= |t| && i + k <= |s|
    ensures TokenFrom(t, s, i, k) <==> i + |t| <= |s| && forall j :: k <= j < |t| ==> s[i + j] == t[j]
    decreases |t| - k
  {
    if k < |t| && i + k < |s| {
      TokenFromSpec(t, s, i, k + 1);
    }
  }

  /** The literal rule `token(t, tag)`. */
  function TokenMatch(t: string, tag: string, s: CString, i: nat): (r: Ast)
    requires i <= |s|
    ensures !IsFail(r) ==> r.pos == i && r.length == |t| && i + |t| <= |s| && r.error == i
    ensures IsFail(r) ==> r.error == i
  {
    if TokenFrom(t, s, i, 0) then
      TokenFromSpec(t, s, i, 0);
      Ast(i, |t|, i, tag, [], t)
    else Fail(i, i, tag)
  }

  /** `token(t, tag)` succeeds exactly when the input continues with `t` at
      `i`; it then consumes `|t|` characters and keeps `t` as its text, and
      otherwise fails at `i`. */
  lemma TokenSpec(t: string, tag: string, s: CString, i: nat)
    requires i <= |s|
    ensures var r := TokenMatch(t, tag, s, i);
      && (!IsFail(r) <==> i + |t| <= |s| && s[i..i + |t|] == t)
      && (!IsFail(r) ==> r == Ast(i, |t|, i, tag, [], t))
      && (IsFail(r) ==> r == Fail(i, i, tag))
  {
    TokenFromSpec(t, s, i, 0);
    if i + |t| <= |s| {
      assert s[i..i + |t|] == t <==> forall j :: 0 <= j < |t| ==> s[i + j] == t[j] by {
        if forall j :: 0 <= j < |t| ==> s[i + j] == t[j] {
          assert s[i..i + |t|] == t;
        }
      }
    }
  }

  /** `wsmatch`: never fails; consumes the whitespace run from `i`. */
  function WsMatch(s: CString, i: nat): (r: Ast)
    requires i <= |s|
    ensures !IsFail(r) && r.pos == i && 0 <= r.length && r.error == i + r.length <= |s|
  {
    var e := SpanEnd(s, i, Blank);
    Ast(i, e - i, e, "ws", [], "")
  }

  /** `wsmatch` consumes exactly the maximal whitespace run from `i` and
      reports the end of that run as its error offset. */
  lemma WsSpec(s: CString, i: nat)
    requires i <= |s|
    ensures var r := WsMatch(s, i);
      && r.tag == "ws" && r.data == [] && r.text == ""
      && (forall k :: i <= k < r.error ==> IsWs(s[k]))
      && (r.error == |s| || !IsWs(s[r.error]))
  {
    SpanEndSpec(s, i, Blank);
  }

  /** `nummatch`. */
  function NumMatch(s: CString, i: nat): (r: Ast)
    requires i <= |s|
    ensures !IsFail(r) ==> r.pos == i && 1 <= r.length && r.error == i + r.length <= |s|
    ensures IsFail(r) ==> r.error == i
    ensures r.tag == "number"
  {
    var e := SpanEnd(s, i, Digits);
    if e == i then Fail(i, i, "number") else Ast(i, e - i, e, "number", [], Substr(s, i, e))
  }

  /** `nummatch` fails at `i` exactly when no digit or dot is there;
      otherwise the maximal digit/dot run from `i` is the matched text. */
  lemma NumSpec(s: CString, i: nat)
    requires i <= |s|
    ensures var r := NumMatch(s, i);
      && (IsFail(r) <==> i == |s| || !IsNumChar(s[i]))
      && (IsFail(r) ==> r == Fail(i, i, "number"))
      && (!IsFail(r) ==>
            && r.tag == "number" && r.data == []
            && r.text == s[i..r.error]
            && (forall k :: i <= k < r.error ==> IsNumChar(s[k]))
            && (r.error == |s| || !IsNumChar(s[r.error])))
  {
    SpanEndSpec(s, i, Digits);
    var e := SpanEnd(s, i, Digits);
    if e > i {
      SubstrIsSlice(s, i, e);
    }
  }

  /** The characters of `s` from `a` up to `b` form the contents of a
      string literal as `strmatch` scans them: a backslash takes the next
      character with it, whatever that is, and no other character is a
      double quote. Nothing is unescaped. */
  predicate StrBody(s: CString, a: nat, b: nat)
    requires b <= |s|
    decreases b - a
  {
    a >= b || (if s[a] == '\\' then a + 2 <= b && StrBody(s, a + 2, b)
               else s[a] != '"' && StrBody(s, a + 1, b))
  }

  /** Scanning step over an ordinary character. */
  lemma {:induction false} StrBodyPlain(s: CString, a: nat, c: nat)
    requires a <= c < |s| && s[c] != '\\' && s[c] != '"'
    requires StrBody(s, a, c)
    ensures StrBody(s, a, c + 1)
    decreases c - a
  {
    if a < c {
      if s[a] == '\\' {
        if a + 2 <= c {
          StrBodyPlain(s, a + 2, c);
        }
      } else {
        StrBodyPlain(s, a + 1, c);
      }
    }
  }

  /** Scanning step over an escape: the pair joins the body, while the
      backslash alone does not close it. */
  lemma {:induction false} StrBodyEscape(s: CString, a: nat, c: nat)
    requires a <= c && c + 1 < |s| && s[c] == '\\'
    requires StrBody(s, a, c)
    ensures StrBody(s, a, c + 2)
    ensures !StrBody(s, a, c + 1)
    decreases c - a
  {
    if a < c {
      if s[a] == '\\' {
        if a + 2 <= c {
          StrBodyEscape(s, a + 2, c);
        }
      } else {
        StrBodyEscape(s, a + 1, c);
      }
    }
  }

  /** The scan is deterministic: where a body from `a` could also stop
      short at `d`, the character at `d` is part of the longer body and so
      is no unescaped quote. */
  lemma {:induction false} StrBodyNoQuote(s: CString, a: nat, d: nat, b: nat)
    requires a <= d < b <= |s| && StrBody(s, a, d) && StrBody(s, a, b)
    ensures s[d] != '"'
    decreases d - a
  {
    if a < d {
      if s[a] == '\\' {
        StrBodyNoQuote(s, a + 2, d, b);
      } else {
        StrBodyNoQuote(s, a + 1, d, b);
      }
    }
  }

  /** The quote at `d` closes the string opened at `i`: no backslash of the
      scanned contents skips it. */
  predicate ClosesAt(s: CString, i: nat, d: nat)
  {
    i < d < |s| && s[d] == '"' && StrBody(s, i + 1, d)
  }

  /** The scanning loop of `strmatch`, positioned at `c` inside the string
      that opened at `i`. */
  function StrScan(s: CString, i: nat, c: nat): (r: Ast)
    requires i < c <= |s|
    ensures !IsFail(r) ==> r.pos == i && c + 1 - i <= r.length && r.error == i + r.length - 1 < |s|
    ensures !IsFail(r) ==> |r.text| == r.length
    ensures IsFail(r) ==> r.error == |s|
    ensures r.tag == "string"
    decreases |s| - c
  {
    if c == |s| then Fail(i, c, "string")
    else if s[c] == '\\' then
      if c + 1 == |s| then
        // The C++ loop steps over the terminator here; the model fails.
        Fail(i, c + 1, "string")
      else StrScan(s, i, c + 2)
    else if s[c] == '"' then Ast(i, c + 1 - i, c, "string", [], Substr(s, i, c + 1))
    else StrScan(s, i, c + 1)
  }

  /** The shape of the scan's result: a success keeps the scanned text from
      the opening quote through the closing one; a failure reports the end of
      the input. */
  lemma {:induction false} StrScanShape(s: CString, i: nat, c: nat)
    requires i < c <= |s|
    ensures var r := StrScan(s, i, c);
      && (!IsFail(r) ==> r.tag == "string" && r.data == [] && r.text == Substr(s, i, r.error + 1))
      && (IsFail(r) ==> r == Fail(i, |s|, "string"))
    decreases |s| - c
  {
    if c < |s| && s[c] == '\\' && c + 1 < |s| {
      StrScanShape(s, i, c + 2);
    } else if c < |s| && s[c] != '\\' && s[c] != '"' {
      StrScanShape(s, i, c + 1);
    }
  }

  /** The scan stops at the first quote that closes the string, and fails
      only when no quote from `c` on closes it. */
  lemma {:induction false} StrScanSpec(s: CString, i: nat, c: nat)
    requires i < c <= |s| && s[i] == '"'
    requires StrBody(s, i + 1, c)
    ensures var r := StrScan(s, i, c);
      && (!IsFail(r) ==> ClosesAt(s, i, r.error) && forall d :: c <= d < r.error ==> !ClosesAt(s, i, d))
      && (IsFail(r) ==> forall d :: c <= d ==> !ClosesAt(s, i, d))
    decreases |s| - c
  {
    var r := StrScan(s, i, c);
    if c < |s| && s[c] == '\\' && c + 1 < |s| {
      StrBodyEscape(s, i + 1, c);
      assert r == StrScan(s, i, c + 2);
      StrScanSpec(s, i, c + 2);
      assert !ClosesAt(s, i, c + 1);
    } else if c < |s| && s[c] != '\\' && s[c] != '"' {
      StrBodyPlain(s, i + 1, c);
      assert r == StrScan(s, i, c + 1);
      StrScanSpec(s, i, c + 1);
    }
  }

  /** `strmatch`. */
  function StrMatch(s: CString, i: nat): (r: Ast)
    requires i <= |s|
    ensures !IsFail(r) ==> r.pos == i && 2 <= r.length && r.error == i + r.length - 1 < |s|
    ensures !IsFail(r) ==> |r.text| == r.length
    ensures i <= r.error <= |s| && r.tag == "string"
  {
    if At(s, i) != '"' then Fail(i, i, "string") else StrScan(s, i, i + 1)
  }

  /** A whole input that is one quoted string scanning through to its
      last character matches as that string, quotes included. */
  lemma QuotedMatch(s: CString)
    requires 2 <= |s| && s[0] == '"' && ClosesAt(s, 0, |s| - 1)
    ensures StrMatch(s, 0) == Ast(0, |s|, |s| - 1, "string", [], s)
  {
    var e := |s| - 1;
    StrSpec(s, 0);
    var d := StrMatch(s, 0);
    if d.error < e {
      StrBodyNoQuote(s, 1, d.error, e);
    }
    assert s[0..|s|] == s;
  }

  /** `strmatch` succeeds exactly when an opening quote at `i` is closed by
      a quote that no backslash skips; the first such quote ends it, and the
      match keeps both quotes. Without an opening quote it fails at `i`;
      an unclosed string fails at the end of the input. */
  lemma StrSpec(s: CString, i: nat)
    requires i <= |s|
    ensures var r := StrMatch(s, i);
      && (At(s, i) != '"' ==> r == Fail(i, i, "string"))
      && (!IsFail(r) <==> At(s, i) == '"' && exists c :: ClosesAt(s, i, c))
      && (!IsFail(r) ==>
            && r.tag == "string" && r.data == []
            && ClosesAt(s, i, r.error) && r.text == s[i..i + r.length]
            && (forall d :: i < d < r.error ==> !ClosesAt(s, i, d)))
      && (IsFail(r) && At(s, i) == '"' ==> r == Fail(i, |s|, "string"))
  {
    if At(s, i) == '"' {
      StrScanShape(s, i, i + 1);
      StrScanSpec(s, i, i + 1);
      var r := StrMatch(s, i);
      if !IsFail(r) {
        SubstrIsSlice(s, i, r.error + 1);
      }
    }
  }
}
