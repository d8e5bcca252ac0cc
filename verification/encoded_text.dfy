/** Where the encoder's text for an array or an object puts each of its
    pieces: the indentation, each item or member, the comma after it, the
    blanks up to the next one, and the closing character. */
module EncodedText {
  import opened MatchResult
  import opened Matchers
  import opened OrderedMap
  import opened Json
  import opened Encoder
  import opened Layout

  lemma IndentSpaces(t: string)
    requires Spaces(t)
    ensures Spaces(t + Indent) && Spaces(t + Indent8)
  {
  }

  /** The text of array `v` at indentation `T`, from its `j`-th item up to
      and including the closing bracket, stands at `q0`. */
  predicate ItemsAt(s: CString, q0: nat, v: Value, T: string, j: nat)
  {
    v.Array? && Encodable(v) && Spaces(T) && j <= |v.items| && HasAt(s, q0, Items(v, T, j) + T + "]")
  }

  /** The text of object `v` at indentation `T`, from its `j`-th member up
      to and including the closing brace, stands at `q0`. */
  predicate MembersAt(s: CString, q0: nat, v: Value, T: string, j: nat)
  {
    v.Object? && Encodable(v) && Spaces(T) && j <= |v.fields.entries| && HasAt(s, q0, Members(v, T, j) + T + "}")
  }

  /** The text of array `v` from its `j`-th item on, when that item
      exists: the item's indentation, its text, its comma, and the rest. */
  lemma ItemText(v: Value, T: string, s: CString, q0: nat, j: nat)
    requires ItemsAt(s, q0, v, T, j) && j < |v.items|
    ensures var T4 := T + Indent; var c := j + 1 < |v.items|;
      var q1 := q0 + |Items(v, T, j)| - |Items(v, T, j + 1)|;
      && ItemsPad(v, T, j) == T4 && HasAt(s, q0, T4)
      && ItemHead(s, q0 + |T4|, v.items[j], T4, q1 - |Comma(c)|, c) && ItemsAt(s, q1, v, T, j + 1)
  {
    var x := v.items[j];
    var c := j + 1 < |v.items|;
    var T4 := T + Indent;
    var p := q0 + |T4|;
    IndentSpaces(T);
    HasAtPeel(s, q0, EncodeOs(x, T4, c), Items(v, T, j + 1), T, "]", q0 + |Items(v, T, j)| - |Items(v, T, j + 1)|);
    HasAtLine(s, q0, T4, Core(x, T4), Comma(c), p, p + |Core(x, T4)|);
  }

  /** The text of array `v` after its last item: indentation, then the
      closing bracket. */
  lemma ItemsEnd(v: Value, T: string, s: CString, q0: nat)
    requires v.Array? && ItemsAt(s, q0, v, T, |v.items|)
    ensures && ItemsPad(v, T, |v.items|) == T && |Items(v, T, |v.items|)| == 0
      && HasAt(s, q0, T) && q0 + |T| < |s| && s[q0 + |T|] == ']'
  {
    assert Items(v, T, |v.items|) + T == T;
    HasAtSplit(s, q0, T, "]");
    HasAtChar(s, q0 + |T|, "]", 0);
  }

  /** The blanks before the `j`-th item of array `v`, or before its closing
      bracket, are followed by a character that is not blank. */
  lemma ItemsGap(v: Value, T: string, s: CString, q0: nat, j: nat)
    requires ItemsAt(s, q0, v, T, j)
    ensures GapAt(s, q0, ItemsPad(v, T, j))
  {
    if j == |v.items| {
      ItemsEnd(v, T, s, q0);
    } else {
      var x := v.items[j];
      var T4 := T + Indent;
      ItemText(v, T, s, q0, j);
      IndentSpaces(T);
      CoreStart(x, T4);
      HasAtChar(s, q0 + |T4|, Core(x, T4), 0);
    }
  }

  /** The encoder's text for `x` at `p`, ending at `h` where the line
      end after it (with a comma when `c`) stands. */
  predicate ItemHead(s: CString, p: nat, x: Value, T4: string, h: int, c: bool)
  {
    Encodable(x) && Spaces(T4) && HasAt(s, p, Core(x, T4)) && h == p + |Core(x, T4)| && HasAt(s, h, Comma(c))
  }

  /** The encoder's text for `x` at `p`, then blanks `w` up to a
      character at `e` that is not blank. */
  predicate ItemLaid(s: CString, p: nat, x: Value, T4: string, w: string, e: nat)
  {
    Encodable(x) && Spaces(T4) && HasAt(s, p, Core(x, T4)) && Trailed(s, p + |Core(x, T4)|, w, e)
  }

  /** An item's text, its line end, and the next line's indentation up to
      the next value: the item followed by blanks. */
  lemma ItemTrail(s: CString, p: nat, x: Value, T4: string, h: nat, c: bool, pad: string, q1: nat)
    requires ItemHead(s, p, x, T4, h, c) && q1 == h + |Comma(c)| && GapAt(s, q1, pad)
    ensures ItemLaid(s, p, x, T4, Comma(c) + pad, q1 + |pad|)
  {
    CommaTrail(s, h, c, pad, q1, q1 + |pad|);
  }

  /** The layout around the `j`-th item of array `v`: the item and the
      blanks after it (its comma and the indentation that follows) up to
      the next item or the bracket, and the rest of the array text from
      `q1`. */
  lemma ItemLayout(v: Value, T: string, s: CString, q0: nat, j: nat)
    requires ItemsAt(s, q0, v, T, j) && j < |v.items|
    ensures var pad := ItemsPad(v, T, j + 1);
      var q1 := q0 + |Items(v, T, j)| - |Items(v, T, j + 1)|;
      && q0 < q1 && ItemsAt(s, q1, v, T, j + 1)
      && ItemLaid(s, q0 + |ItemsPad(v, T, j)|, v.items[j], T + Indent, Comma(j + 1 < |v.items|) + pad, q1 + |pad|)
  {
    var c := j + 1 < |v.items|;
    var q1 := q0 + |Items(v, T, j)| - |Items(v, T, j + 1)|;
    ItemText(v, T, s, q0, j);
    ItemsGap(v, T, s, q1, j + 1);
    ItemTrail(s, q0 + |ItemsPad(v, T, j)|, v.items[j], T + Indent, q1 - |Comma(c)|, c, ItemsPad(v, T, j + 1), q1);
  }

  /** The frame of the text of array `v`: the opening character and line
      break, then the body from `i + 2` up to the closing character. */
  lemma ArrayFrame(v: Value, T: string, s: CString, i: nat)
    requires v.Array? && Encodable(v) && Spaces(T) && HasAt(s, i, Core(v, T))
    ensures var c := i + 2 + |Items(v, T, 0)| + |T|;
      && HasAt(s, i, "[") && HasAt(s, i + 1, "\n") && ItemsAt(s, i + 2, v, T, 0)
      && HasAt(s, c, "]") && c + 1 == i + |Core(v, T)|
  {
    assert Core(v, T) == (("[" + "\n" + Items(v, T, 0)) + T) + "]";
    BracketFrame(s, i, "[", Items(v, T, 0), T, "]");
  }

  /** The array text of `v`: its opening character, then the line break
      and blanks up to the first item or the closing bracket, which ends the
      text. */
  lemma ArrayOpen(v: Value, T: string, s: CString, i: nat)
    requires v.Array? && Encodable(v) && Spaces(T) && HasAt(s, i, Core(v, T))
    ensures var pad := ItemsPad(v, T, 0); var c := i + 2 + |Items(v, T, 0)| + |T|;
      && HasAt(s, i, "[") && HasAt(s, i + 1, "\n" + pad) && AllWs(pad)
      && i + 2 + |pad| < |s| && !IsWs(s[i + 2 + |pad|])
      && HasAt(s, c, "]") && c + 1 == i + |Core(v, T)|
  {
    var pad := ItemsPad(v, T, 0);
    ArrayFrame(v, T, s, i);
    ItemsGap(v, T, s, i + 2, 0);
    SpacesAreWs(pad);
    HasAtJoinAt(s, i + 1, "\n", pad, i + 2);
  }

  /** The encoder's text for entry `en` at `p`: the quoted key, the
      colon, the line break and indentation `T8`, then the value's text. */
  predicate MemberWritten(s: CString, p: nat, en: Entry<Value>, T8: string)
  {
    && Clean(en.key) && Encodable(en.val) && Spaces(T8)
    && HasAt(s, p, "\"" + en.key + "\"") && HasAt(s, p + |en.key| + 2, ":")
    && HasAt(s, p + |en.key| + 3, "\n" + T8) && HasAt(s, p + |en.key| + 4 + |T8|, Core(en.val, T8))
  }

  /** The text of object `v` from its `j`-th member on, when that member
      exists: the member's lines, then the rest from `q1`. */
  lemma MemberSplit(v: Value, T: string, s: CString, q0: nat, j: nat)
    requires MembersAt(s, q0, v, T, j) && j < |v.fields.entries|
    ensures var e := v.fields.entries[j]; var c := j + 1 < |v.fields.entries|;
      var q1 := q0 + |Members(v, T, j)| - |Members(v, T, j + 1)|;
      && MembersPad(v, T, j) == T + Indent && Clean(e.key) && Encodable(e.val)
      && HasAt(s, q0, MemberLines(e, T, c)) && q1 == q0 + |MemberLines(e, T, c)| && MembersAt(s, q1, v, T, j + 1)
  {
    var c := j + 1 < |v.fields.entries|;
    HasAtPeel(s, q0, MemberLines(v.fields.entries[j], T, c), Members(v, T, j + 1), T, "}",
              q0 + |Members(v, T, j)| - |Members(v, T, j + 1)|);
  }

  /** The lines of one member: indentation, then the member itself, ending
      where its line end stands. */
  lemma MemberLinesAt(s: CString, q0: nat, e: Entry<Value>, T: string, c: bool)
    requires Clean(e.key) && Encodable(e.val) && Spaces(T) && HasAt(s, q0, MemberLines(e, T, c))
    ensures var T4 := T + Indent;
      && HasAt(s, q0, T4) && MemberHead(s, q0 + |T4|, e, T + Indent8, q0 + |MemberLines(e, T, c)| - |Comma(c)|, c)
  {
    var T4, T8 := T + Indent, T + Indent8;
    var p := q0 + |T4|;
    assert |MemberLines(e, T, c)| == |T4| + |e.key| + 4 + |T8| + |Core(e.val, T8)| + |Comma(c)|;
    MemberWrittenAt(s, q0, e, T, c, p, p + |e.key| + 4 + |T8|);
  }

  /** The pieces of one member's lines, each where the encoder puts it. */
  lemma MemberWrittenAt(s: CString, q0: nat, e: Entry<Value>, T: string, c: bool, p: nat, q: nat)
    requires Clean(e.key) && Encodable(e.val) && Spaces(T) && HasAt(s, q0, MemberLines(e, T, c))
    requires p == q0 + |T + Indent| && q == p + |e.key| + 4 + |T + Indent8|
    ensures && HasAt(s, q0, T + Indent) && MemberWritten(s, p, e, T + Indent8)
      && HasAt(s, q + |Core(e.val, T + Indent8)|, Comma(c))
  {
    var T4, T8 := T + Indent, T + Indent8;
    var A := (((T4 + "\"") + e.key) + "\":") + "\n";
    IndentSpaces(T);
    assert MemberLines(e, T, c) == A + ((T8 + Core(e.val, T8)) + Comma(c));
    HasAtMember(s, q0, T4, e.key, T8, Core(e.val, T8), Comma(c), p, q);
  }

  /** The text of object `v` after its last member: indentation, then the
      closing brace. */
  lemma MembersEnd(v: Value, T: string, s: CString, q0: nat)
    requires v.Object? && MembersAt(s, q0, v, T, |v.fields.entries|)
    ensures && MembersPad(v, T, |v.fields.entries|) == T && |Members(v, T, |v.fields.entries|)| == 0
      && HasAt(s, q0, T) && q0 + |T| < |s| && s[q0 + |T|] == '}'
  {
    assert Members(v, T, |v.fields.entries|) + T == T;
    HasAtSplit(s, q0, T, "}");
    HasAtChar(s, q0 + |T|, "}", 0);
  }

  /** The blanks before the `j`-th member of object `v`, or before its
      closing brace, are followed by a character that is not blank. */
  lemma MembersGap(v: Value, T: string, s: CString, q0: nat, j: nat)
    requires MembersAt(s, q0, v, T, j)
    ensures GapAt(s, q0, MembersPad(v, T, j))
  {
    if j == |v.fields.entries| {
      MembersEnd(v, T, s, q0);
    } else {
      var e := v.fields.entries[j];
      MemberSplit(v, T, s, q0, j);
      MemberLinesAt(s, q0, e, T, j + 1 < |v.fields.entries|);
      HasAtChar(s, q0 + |T + Indent|, "\"" + e.key + "\"", 0);
    }
  }

  /** The encoder's text for entry `en` at `p`, ending at `h` where the
      line end after it (with a comma when `c`) stands. */
  predicate MemberHead(s: CString, p: nat, en: Entry<Value>, T8: string, h: int, c: bool)
  {
    && MemberWritten(s, p, en, T8) && h == p + |en.key| + 4 + |T8| + |Core(en.val, T8)|
    && HasAt(s, h, Comma(c))
  }

  /** The encoder's text for entry `en` at `p`, then blanks `w` up to a
      character at `e` that is not blank. */
  predicate MemberLaid(s: CString, p: nat, en: Entry<Value>, T8: string, w: string, e: nat)
  {
    MemberWritten(s, p, en, T8) && Trailed(s, p + |en.key| + 4 + |T8| + |Core(en.val, T8)|, w, e)
  }

  /** A member's text, its line end, and the next line's indentation up
      to the next member: the member followed by blanks. */
  lemma MemberTrail(s: CString, p: nat, en: Entry<Value>, T8: string, h: nat, c: bool, pad: string, q1: nat)
    requires MemberHead(s, p, en, T8, h, c) && q1 == h + |Comma(c)| && GapAt(s, q1, pad)
    ensures MemberLaid(s, p, en, T8, Comma(c) + pad, q1 + |pad|)
  {
    CommaTrail(s, h, c, pad, q1, q1 + |pad|);
  }

  /** The lines of one member followed by blanks up to the next member or
      the brace: the member's text then those blanks. */
  lemma MemberLaidAt(s: CString, q0: nat, e: Entry<Value>, T: string, c: bool, pad: string, q1: nat)
    requires Clean(e.key) && Encodable(e.val) && Spaces(T) && HasAt(s, q0, MemberLines(e, T, c))
    requires q1 == q0 + |MemberLines(e, T, c)| && GapAt(s, q1, pad)
    ensures MemberLaid(s, q0 + |T + Indent|, e, T + Indent8, Comma(c) + pad, q1 + |pad|)
  {
    MemberLinesAt(s, q0, e, T, c);
    MemberTrail(s, q0 + |T + Indent|, e, T + Indent8, q1 - |Comma(c)|, c, pad, q1);
  }

  /** The layout around the `j`-th member of object `v`: the member and
      the blanks after it (its comma and the indentation that follows) up
      to the next member or the brace, and the rest of the object text
      from `q1`. */
  lemma MemberLayout(v: Value, T: string, s: CString, q0: nat, j: nat)
    requires MembersAt(s, q0, v, T, j) && j < |v.fields.entries|
    ensures var pad := MembersPad(v, T, j + 1);
      var q1 := q0 + |Members(v, T, j)| - |Members(v, T, j + 1)|;
      && q0 < q1 && MembersAt(s, q1, v, T, j + 1)
      && MemberLaid(s, q0 + |MembersPad(v, T, j)|, v.fields.entries[j], T + Indent8,
                    Comma(j + 1 < |v.fields.entries|) + pad, q1 + |pad|)
  {
    var c := j + 1 < |v.fields.entries|;
    var q1 := q0 + |Members(v, T, j)| - |Members(v, T, j + 1)|;
    MemberSplit(v, T, s, q0, j);
    MembersGap(v, T, s, q1, j + 1);
    MemberLaidAt(s, q0, v.fields.entries[j], T, c, MembersPad(v, T, j + 1), q1);
  }

  /** The frame of the text of object `v`: the opening character and line
      break, then the body from `i + 2` up to the closing character. */
  lemma ObjectFrame(v: Value, T: string, s: CString, i: nat)
    requires v.Object? && Encodable(v) && Spaces(T) && HasAt(s, i, Core(v, T))
    ensures var c := i + 2 + |Members(v, T, 0)| + |T|;
      && HasAt(s, i, "{") && HasAt(s, i + 1, "\n") && MembersAt(s, i + 2, v, T, 0)
      && HasAt(s, c, "}") && c + 1 == i + |Core(v, T)|
  {
    assert Core(v, T) == (("{" + "\n" + Members(v, T, 0)) + T) + "}";
    BracketFrame(s, i, "{", Members(v, T, 0), T, "}");
  }

  /** The object text of `v`: its opening character, then the line break
      and blanks up to the first member or the closing brace, which ends the
      text. */
  lemma ObjectOpen(v: Value, T: string, s: CString, i: nat)
    requires v.Object? && Encodable(v) && Spaces(T) && HasAt(s, i, Core(v, T))
    ensures var pad := MembersPad(v, T, 0); var c := i + 2 + |Members(v, T, 0)| + |T|;
      && HasAt(s, i, "{") && HasAt(s, i + 1, "\n" + pad) && AllWs(pad)
      && i + 2 + |pad| < |s| && !IsWs(s[i + 2 + |pad|])
      && HasAt(s, c, "}") && c + 1 == i + |Core(v, T)|
  {
    var pad := MembersPad(v, T, 0);
    ObjectFrame(v, T, s, i);
    MembersGap(v, T, s, i + 2, 0);
    SpacesAreWs(pad);
    HasAtJoinAt(s, i + 1, "\n", pad, i + 2);
  }
}
