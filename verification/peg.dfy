/** The parsing-expression combinator engine: rules as data and one
    interpreter that runs a rule on a C string from an offset. */
module Peg {
  import opened MatchResult
  import opened Matchers
  import opened Combinators

  /** A rule of the engine. `Token`, `Ws`, `Num` and `Str` are the terminal
      matchers; `All` is sequence, `Many` repetition, `Cases` ordered choice,
      each with the tag it gives its result; `Lazy` is a forward reference to
      the grammar's top rule, resolved only when it is run. */
  datatype Rule =
    | Token(text: string, tag: string)
    | Ws
    | Num
    | Str
    | All(rules: seq<Rule>, tag: string)
    | Many(body: Rule, tag: string)
    | Cases(rules: seq<Rule>, tag: string)
    | Lazy

  /** Runs rule `g` at offset `i`; `root` is what `Lazy` refers to. `base`
      is the offset where the innermost running expansion of `root` started.
      Reaching `Lazy` again at that same offset means the C++ would call the
      top rule with the arguments of a call still in progress and so recurse
      without end; the model answers with a failure there instead. */
  function Eval(root: Rule, g: Rule, s: CString, i: nat, base: nat): Ast
    requires base <= i <= |s|
    decreases |s| - base, g, 2
  {
    match g
    case Token(t, tag) => TokenMatch(t, tag, s, i)
    case Ws => WsMatch(s, i)
    case Num => NumMatch(s, i)
    case Str => StrMatch(s, i)
    case All(rs, tag) => AllOf(Sub(root, g, s, base), |rs|, i, tag)
    case Many(_, tag) => ManyOf(Sub(root, g, s, base), |s|, i, tag)
    case Cases(rs, tag) => CasesOf(Sub(root, g, s, base), |rs|, i, tag)
    case Lazy => if base < i then Eval(root, root, s, i, i) else Fail(i, i, "")
  }

  /** How a combinator `g` runs its sub-rules: `all` and `cases` run
      sub-rule `j`, `many` runs its body whatever the attempt. Offsets
      outside `base .. |s|` are never asked for. */
  function Sub(root: Rule, g: Rule, s: CString, base: nat): Runner
    decreases |s| - base, g, 1
  {
    (j: nat, p: int) => SubAt(root, g, s, base, j, p)
  }

  function SubAt(root: Rule, g: Rule, s: CString, base: nat, j: nat, p: int): Ast
    decreases |s| - base, g, 0
  {
    if !(base <= p <= |s|) then Fail(p, p, "")
    else if g.Many? then Eval(root, g.body, s, p, base)
    else if (g.All? || g.Cases?) && j < |g.rules| then Eval(root, g.rules[j], s, p, base)
    else Fail(p, p, "")
  }

  /** Every successful result starts where the rule was run, has a length
      of zero or more, and ends within the input. */
  lemma {:induction false} EvalFits(root: Rule, g: Rule, s: CString, i: nat, base: nat)
    requires base <= i <= |s|
    ensures Fits(Eval(root, g, s, i, base), i, |s|)
    decreases |s| - base, g, 1
  {
    match g
    case All(rs, tag) =>
      SubFits(root, g, s, base);
      AllOfFits(Sub(root, g, s, base), |rs|, i, tag, base, |s|);
    case Many(_, tag) =>
      ManyOfFits(Sub(root, g, s, base), |s|, i, tag);
    case Cases(rs, tag) =>
      SubFits(root, g, s, base);
      CasesOfFits(Sub(root, g, s, base), |rs|, i, tag, base, |s|);
    case Lazy =>
      if base < i {
        EvalFits(root, root, s, i, i);
      }
    case _ =>
  }

  /** The runner a combinator rule hands to its loop fits the input at every
      offset the loop can reach. */
  lemma {:induction false} SubFits(root: Rule, g: Rule, s: CString, base: nat)
    ensures RunnerFits(Sub(root, g, s, base), base, |s|)
    decreases |s| - base, g, 0
  {
    var f := Sub(root, g, s, base);
    forall j: nat, p: int | base <= p <= |s|
      ensures Fits(f(j, p), p, |s|)
    {
      assert f(j, p) == SubAt(root, g, s, base, j, p);
      if g.Many? {
        assert f(j, p) == Eval(root, g.body, s, p, base);
        EvalFits(root, g.body, s, p, base);
      } else if (g.All? || g.Cases?) && j < |g.rules| {
        assert f(j, p) == Eval(root, g.rules[j], s, p, base);
        EvalFits(root, g.rules[j], s, p, base);
      } else {
        assert f(j, p) == Fail(p, p, "");
      }
    }
  }

  /** What the runner of a combinator rule gives: sub-rule `j` of a sequence
      or a choice, or the body of a repetition, run with `Eval`. */
  lemma SubIsEval(root: Rule, g: Rule, s: CString, base: nat, j: nat, p: nat)
    requires base <= p <= |s|
    ensures g.Many? ==> Sub(root, g, s, base)(j, p) == Eval(root, g.body, s, p, base)
    ensures (g.All? || g.Cases?) && j < |g.rules| ==> Sub(root, g, s, base)(j, p) == Eval(root, g.rules[j], s, p, base)
  {
  }

  /** An `all` rule runs its sub-rules in order through `Sub`. */
  lemma EvalAll(root: Rule, g: Rule, s: CString, i: nat, base: nat)
    requires g.All? && base <= i <= |s|
    ensures Eval(root, g, s, i, base) == AllOf(Sub(root, g, s, base), |g.rules|, i, g.tag)
  {
  }
}
