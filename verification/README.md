# json.hpp in Dafny

A model of the single-header C++ JSON library `json.hpp` and proofs about
it. The library has three parts, and so does the model:

- **The ordered hash** (`json::hash<T>`, module `OrderedMap`). It is a list
  of key/value entries kept in insertion order and searched from the front.
  The model covers `has`, `operator[]` used to read (it appends a blank entry
  for a missing key), `operator[]` used to assign, and the
  initializer-list constructor.
- **The parser** (`json_internals`). It is a small parsing-expression
  engine:
  - the result record `ast` with `fail`/`isfail` (module `MatchResult`);
  - the matchers `token`, `wsmatch`, `nummatch` and `strmatch` (module
    `Matchers`);
  - the combinators `all`, `many`, `cases` and `lazy` (modules
    `Combinators` and `Peg`);
  - the grammar `element` (module `Grammar`).

  A rule is a value of the datatype `Peg.Rule`, and one interpreter
  `Peg.Eval` runs it on a C string from an offset. The input is a
  `MatchResult.CString`, a character sequence without NUL. An offset at or
  past its end reads NUL, as the C++ pointer does.
- **The decoder and encoder**. The decoder (`decoder::*`, module `Decoder`)
  turns a successful parse into a `Json.Value`. The encoder
  (`encoder::encodeos`, module `Encoder`) writes a value one item per line
  with four-space indentation. The entry points `json::decode` and
  `json::encode` are in module `Codec`.

The main results are:

- `ParseShape.ElementDecodes`: the decoder's `abort()` is unreachable on a
  successful parse, and so is every missing index.
- `ParseShape.ItemsStop` and `ParseShape.PairsStop`: in this grammar, `many`
  stops exactly where the C++ loop stops.
- `Codec.EncodeDecode`: decoding the encoding of a value gives the value
  back. This holds for every value whose strings and keys hold no quote,
  backslash or NUL, and which holds no number.

The modules follow the layout of the header:

| module | contents |
|---|---|
| `MatchResult` | the parse result |
| `Matchers` | the matchers |
| `Combinators` | the combinators over an abstract runner |
| `Peg` | the rule interpreter |
| `Grammar` | the grammar |
| `Decoder` | the decoder |
| `Encoder` | the encoder |
| `Json`, `OrderedMap` | the value type and the ordered hash |
| `Codec` | the two entry points |

The remaining modules hold only proofs:

| module | what it proves |
|---|---|
| `ParseShape` | the shape of successful parses |
| `Layout` | facts about encoder text, slice by slice |
| `EncodedText` | where each piece of the encoder's text lies |
| `ParseAt` | how the grammar parses that text |
| `RoundTrip` | that each value's text parses and decodes back |

Two predicates, `Layout.HasAt` and `ParseAt.IsRunner`, place their
defining equation two recursive calls deep. This keeps the equation out of
the solver's way in the large round-trip proofs. Each has a lemma
(`HasAtDef`, `IsRunnerDef`) that states the equation.

## Model

| member | source | states |
|---|---|---|
| Matchers.TokenSpec | json.hpp:159-168 | `token(t)` succeeds exactly when the input continues with `t`. On success it spans `t` and keeps `t` as its text. Otherwise it fails at the offset with that offset as its error. |
| Matchers.WsSpec | json.hpp:240-249 | `wsmatch` never fails. It consumes the longest run of blanks, which are space, tab, CR, LF and the comma, and reports the end of the run as its error. |
| Matchers.NumSpec | json.hpp:250-259 | `nummatch` fails exactly when no digit or dot stands at the offset. Otherwise its text is the longest run of digits and dots. |
| Matchers.StrSpec | json.hpp:260-269 | `strmatch` succeeds exactly when a quote opens and a later quote closes. A backslash skips the character after it. The first closing quote ends the match, and the text keeps both quotes. With no opening quote it fails at the offset; an unclosed string fails with the input's end as its error. |
| Combinators.AllSpec | json.hpp:181-200 | `all` succeeds exactly when every sub-rule succeeds in turn, each starting where the previous one ended. On success it spans them all. Otherwise it fails with the failing sub-rule's position and tag, and the largest error among the results so far. |
| Combinators.AllOfTrace | json.hpp:181-200 | Converse of AllSpec for success: a chain of successes, each where the previous one ended, is exactly what `all` returns. |
| Combinators.AllFailOfTrace | json.hpp:181-200 | Converse of AllSpec for failure: a chain of successes ending in a failure yields that failure's position and tag, and the farthest error seen. |
| Combinators.AllOfCovers | json.hpp:181-200 | A successful `all` spans at least what its first sub-rule consumed. |
| Combinators.ManySpec | json.hpp:201-217 | `many` never fails. It keeps the body's successes in turn, up to the first attempt that fails, reaches the end of the input, or consumes nothing. It reports that attempt's error as its own. |
| Combinators.ManyOfTrace | json.hpp:201-217 | Converse of ManySpec: kept successes followed by a stopping attempt are exactly what `many` returns. |
| Combinators.CasesSpec | json.hpp:218-232 | `cases` succeeds exactly when some branch succeeds at the offset, and then wraps the first such branch. Otherwise it fails at the offset with the largest of the offset and the branches' errors. |
| Combinators.CasesOfFirst | json.hpp:218-232 | Converse of CasesSpec: the first branch that succeeds is the one wrapped. |
| Peg.EvalFits | json.hpp:134-155 | Every successful result of any rule starts where the rule was run, has a length of zero or more, and ends within the input. |
| Grammar.LazyIsElement | json.hpp:233-237 | A `lazy` reference reached after input has been consumed runs the whole `element` rule afresh at that offset. |
| ParseShape.ElementDecodes | json.hpp:314-321 | Every successful parse of `element` decodes to a value. The decoder never reaches `abort()`, and every `data[...]` index it takes exists. |
| ParseShape.ElementConsumes | json.hpp:276-283 | A successful `element` consumes at least one character. |
| ParseShape.ItemConsumes | json.hpp:281-281 | An array item (element then blanks) consumes at least one character when it succeeds. |
| ParseShape.PairConsumes | json.hpp:280-282 | An object item (member then blanks) consumes at least two characters when it succeeds. |
| ParseShape.ItemsStop | json.hpp:201-217 | The array repetition stops where the C++ loop of `many` does: at a failed item or at one that reaches the end of the input. The model's extra stop on a zero-length success never fires. |
| ParseShape.PairsStop | json.hpp:201-217 | The same for the object repetition. |
| RoundTrip.UnquoteQuoted | json.hpp:296-298 | `substr(1, size - 2)` gives back a string that the encoder put between quotes. |
| RoundTrip.ParseValue | json.hpp:329-352 | The text `encodeos` writes for a value at any indentation of spaces parses as `element` over exactly that text, and decodes to the value. |
| RoundTrip.ParseArray | json.hpp:333-341 | An array's text parses as the array rule over its whole length and decodes to the array, item by item. |
| RoundTrip.ParseObject | json.hpp:342-351 | An object's text parses as the object rule over its whole length and decodes to the object, keys and values in the same order. |
| Codec.CStr | json.hpp:360-360 | The text the parser reads as a C string: the characters before the first NUL, ending with a NUL at the cut, and all of the string when it holds no NUL. |
| Codec.Decode | json.hpp:358-368 | `decode` reports error -1 exactly when the text before any NUL parses as an element. It then always carries a value. On failure it carries the parser's farthest error and no value. |
| Matchers.QuotedMatch | json.hpp:260-269 | On an input that opens with a quote and whose first closing quote is its last character, `strmatch` spans the whole input and keeps it, quotes included, as its text. |
| ParseAt.QuotedElement | json.hpp:276-283 | Such an input parses as `element` through its string branch, over all of its length. |
| Codec.DecodeRawString | json.hpp:295-297 | `decode` of a quoted string returns exactly the characters between the quotes: escape sequences are kept raw, never unescaped. This holds for every content that `strmatch` scans through to the final quote. |
| Codec.EncodeOsNoNul | json.hpp:329-352 | The encoder, at an indentation without NUL, writes no NUL for any value whose text it can write back (no numbers; strings and keys without quote, backslash or NUL). |
| Codec.EncodeDecode | json.hpp:358-374 | `decode(encode(v))` succeeds with `v` for every value without numbers whose strings and keys hold no quote, backslash or NUL. |
| OrderedMap.FindSpec | json.hpp:80-86 | The lookup stops at the first entry with the key, and runs off the end exactly when no entry has the key. |
| OrderedMap.HasSpec | json.hpp:72-79 | `has` holds exactly when some entry carries the key. |
| OrderedMap.GetSpec | json.hpp:80-89 | Reading a present key changes nothing and gives its first entry's value. Reading a missing key appends it with the blank value and returns that value. |
| OrderedMap.SetSpec | json.hpp:80-89 | After assigning through `operator[]`, the key reads back the assigned value. An existing key keeps its place; a new key is appended, and the entry list grows by one exactly then. Only the first entry with the key is written: every other entry, later duplicates of the key included, stays as it was. |
| OrderedMap.SetOther | json.hpp:80-89 | Assigning one key leaves the presence and value of every other key unchanged. |
| OrderedMap.SetUnique | json.hpp:80-89 | Assignment keeps the keys distinct. |
| OrderedMap.FromListSpec | json.hpp:63-68 | The initializer-list constructor yields distinct keys, exactly the keys of the list. Each key stands in the order the list first mentions it and holds the last value the list gives it. |

## Left out

- Numbers: `decoder::number` converts the matched text with `std::stod`,
  and the encoder prints a `double` through `ostream <<` with six
  significant digits. The model keeps a number as the text `nummatch`
  matched. `std::stod` throws on "." and reads "1.2.3" as 1.2. Floating
  point and its printing are not modelled.
- Decoder.DecodeElement: a number decodes to its raw matched text, not to
  the `double` that `std::stod` gives.
- Encoder.Encode: a number is written as its raw text, not as
  `ostream << double` prints it. For this reason `Codec.EncodeDecode` and
  `RoundTrip.ParseValue` exclude numbers.
- Combinators.ManySpec: when the body succeeds without consuming anything,
  the C++ `many` (json.hpp:206-214) loops forever. The model stops there
  instead. `ParseShape.ItemsStop` and `ParseShape.PairsStop` show that
  this never happens in the grammar.
- Peg.Eval: a `lazy` reference reached again at the offset where the
  running `element` started would make the C++ recurse without end. The
  model fails there instead. This is unreachable in the grammar, because
  every `lazy` follows a consumed bracket or key.
- Matchers.StrSpec: a backslash right before the end of the input makes
  `strmatch` step past the terminating NUL, which is undefined behaviour
  in C++. The model treats it as an unclosed string: a failure with the
  input's end as its error.
- Codec.Decode: the model parses only the text before the first NUL
  (`Codec.CStr`), while the C++ parses the whole `s.c_str()` buffer. The
  two agree on every text without NUL. Every matcher stops at a NUL, with
  one exception: `strmatch` skips the character after a backslash without
  looking at it (json.hpp:264), so it can step over an embedded NUL and scan
  on. The string's text is then built from the `const char*`
  (json.hpp:266), which cuts it at the NUL. For the six characters quote,
  `a`, backslash, NUL, `b`, quote, the C++ decodes the string "a". The
  model reports a failure with error 3, as `Codec.DecodeCutAtNul` proves.
  - Past such a NUL the C++ goes on in ways the model does not follow:
    `many` measures the input with `strlen` (json.hpp:203), and building a
    later match's text from an offset past the NUL throws
    `std::out_of_range`.
  - Text after the parsed element is ignored, as in the C++.
  - On failure the C++ leaves `value` a null `shared_ptr`; here it is
    `None`.
- Codec.CStr: it is the input as `strlen` and the matchers' NUL tests see
  it, not the `c_str()` buffer, which runs on to the end of the string.
  See `Codec.Decode` above for where the two differ.
- `std::shared_ptr` sharing and identity, and `new`/ownership: values are
  immutable trees here. Two `shared_ptr`s to one value, or a cycle, have
  no counterpart.
- The `regex` matcher (json.hpp:169-180) and the commented-out regex
  rules: the grammar does not use them.
- The value constructors `json::boolean` … `json::object` (json.hpp:91-120)
  are the constructors of `Json.Value`. `hash::vector()` is the `entries`
  field.
- `int` offsets and lengths are unbounded integers: inputs longer than
  `INT_MAX` are not modelled.
