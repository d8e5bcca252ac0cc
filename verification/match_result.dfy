/** Match results of the combinator engine (the C++ `ast` record) and the
    C-string input that every rule reads. */
module MatchResult {

  /** The character that terminates a C string. */
  const NUL: char := '\0'

  /** What a rule sees through its `const char*` argument: the characters
      before the terminator. An offset `>= |s|` reads the terminator. */
  type CString = s: seq<char> | NUL !in s witness []

  /** The character at offset `i`, reading NUL at and past the end. */
  function At(s: CString, i: nat): char
  {
    if i < |s| then s[i] else NUL
  }

  /** One match result. `length == -1` marks a failure; `error` is the
      farthest offset reached while producing this result; `data` holds the
      sub-results and `text` the matched slice of a terminal rule. */
  datatype Ast = Ast(pos: int, length: int, error: int, tag: string, data: seq<Ast>, text: string)

  predicate IsFail(a: Ast)
  {
    a.length == -1
  }

  /** A failed match attempted at `pos` that reached `error`. */
  function Fail(pos: int, error: int, tag: string): Ast
  {
    Ast(pos, -1, error, tag, [], "")
  }

  function Max(a: int, b: int): int
  {
    if a < b then b else a
  }
}
