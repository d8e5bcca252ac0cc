/** The three combinators `all` (sequence), `many` (repetition) and `cases`
    (ordered choice). As in the C++, each is written over an arbitrary way
    of running its sub-rules, so what each one promises is proved once, for
    any grammar; `Peg` then plugs in its own interpreter. Every statement
    comes with its converse, so together they fix the combinator's result. */
module Combinators {
  import opened MatchResult

  /** `f(j, p)` is the result of running sub-rule `j` at offset `p`. For a
      repetition every `j` names the same body. */
  type Runner = (nat, int) -> Ast

  /** The outcome of a sequence: the sub-results in order, ending with the
      failing one if some sub-rule failed (the C++ `data` vector), and the
      offset where the last successful sub-result ended. */
  datatype SeqRun = SeqRun(data: seq<Ast>, end: int)

  /** The outcome of a repetition: the kept sub-results, the offset they end
      at, and the error of the attempt that stopped it. */
  datatype Run = Run(items: seq<Ast>, end: int, error: int)

  /** The sequence stopped at a failing sub-rule. */
  predicate Stopped(run: SeqRun)
  {
    |run.data| > 0 && IsFail(run.data[|run.data| - 1])
  }

  /** The largest of `lo` and the error offsets of `xs`. */
  function MaxError(xs: seq<Ast>, lo: int): (m: int)
    ensures lo <= m
  {
    MaxErrorFrom(xs, 0, lo)
  }

  function MaxErrorFrom(xs: seq<Ast>, j: nat, lo: int): (m: int)
    ensures lo <= m
    decreases |xs| - j
  {
    if j >= |xs| then lo else Max(xs[j].error, MaxErrorFrom(xs, j + 1, lo))
  }

  /** Total length consumed by a list of results. */
  function SumLen(xs: seq<Ast>): int
  {
    if |xs| == 0 then 0 else xs[0].length + SumLen(xs[1..])
  }

  /** No result of `xs` is a failure. */
  predicate Succeeded(xs: seq<Ast>)
  {
    forall j :: 0 <= j < |xs| ==> !IsFail(xs[j])
  }

  /** `data` are the results of running sub-rules `k`, `k + 1`, ... in turn,
      the first at offset `i` and each next one where the previous one
      ended, up to and including the first failure if there is one. */
  predicate Trace(f: Runner, k: nat, i: int, data: seq<Ast>)
    decreases |data|
  {
    |data| == 0 ||
    (data[0] == f(k, i) &&
     if IsFail(data[0]) then |data| == 1 else Trace(f, k + 1, i + data[0].length, data[1..]))
  }

  /** A result that, if successful, starts at `p`, has a length of zero or
      more, and ends no later than `hi`. */
  predicate Fits(a: Ast, p: int, hi: int)
  {
    !IsFail(a) ==> a.pos == p && 0 <= a.length && p + a.length <= hi
  }

  /** Every result the runner gives for an offset in `lo .. hi` fits there. */
  ghost predicate RunnerFits(f: Runner, lo: int, hi: int)
  {
    forall j: nat, p: int :: lo <= p <= hi ==> Fits(f(j, p), p, hi)
  }

  // ----- all -----

  /** The loop of `all` from sub-rule `k` of `n`, at offset `i`. */
  function AllLoop(f: Runner, n: nat, k: nat, i: int): SeqRun
    decreases n - k
  {
    if k >= n then SeqRun([], i)
    else
      var a := f(k, i);
      if IsFail(a) then SeqRun([a], i)
      else
        var rest := AllLoop(f, n, k + 1, i + a.length);
        SeqRun([a] + rest.data, rest.end)
  }

  lemma SumLenCons(a: Ast, xs: seq<Ast>)
    ensures SumLen([a] + xs) == a.length + SumLen(xs)
  {
    assert ([a] + xs)[1..] == xs;
  }

  lemma SucceededCons(a: Ast, xs: seq<Ast>)
    ensures Succeeded([a] + xs) <==> !IsFail(a) && Succeeded(xs)
  {
    if !IsFail(a) && Succeeded(xs) {
      forall j | 0 <= j < |[a] + xs|
        ensures !IsFail(([a] + xs)[j])
      {
        if 0 < j {
          assert ([a] + xs)[j] == xs[j - 1];
        }
      }
    }
    if Succeeded([a] + xs) {
      assert ([a] + xs)[0] == a;
      forall j | 0 <= j < |xs|
        ensures !IsFail(xs[j])
      {
        assert xs[j] == ([a] + xs)[j + 1];
      }
    }
  }

  /** With a fitting runner the loop of `all` ends between its start and
      `hi`. */
  lemma {:induction false} AllLoopFits(f: Runner, n: nat, k: nat, i: int, lo: int, hi: int)
    requires RunnerFits(f, lo, hi) && lo <= i <= hi
    ensures i <= AllLoop(f, n, k, i).end <= hi
    decreases n - k
  {
    if k < n && !IsFail(f(k, i)) {
      assert Fits(f(k, i), i, hi);
      AllLoopFits(f, n, k + 1, i + f(k, i).length, lo, hi);
    }
  }

  /** Where each result of a trace was produced: result `j` is sub-rule
      `k + j` run where the results before it end, which with a fitting
      runner lies between the start and `hi`. */
  lemma {:induction false} TraceAt(f: Runner, k: nat, i: int, data: seq<Ast>, lo: int, hi: int)
    requires Trace(f, k, i, data) && RunnerFits(f, lo, hi) && lo <= i <= hi
    ensures forall j :: 0 <= j < |data| ==>
      && i <= i + SumLen(data[..j]) <= hi
      && data[j] == f(k + j, i + SumLen(data[..j]))
    decreases |data|
  {
    if 1 < |data| {
      var a := data[0];
      var rest := data[1..];
      assert Fits(f(k, i), i, hi);
      TraceAt(f, k + 1, i + a.length, rest, lo, hi);
      forall j | 1 <= j < |data|
        ensures i <= i + SumLen(data[..j]) <= hi
        ensures data[j] == f(k + j, i + SumLen(data[..j]))
      {
        assert data[..j] == [a] + rest[..j - 1];
        SumLenCons(a, rest[..j - 1]);
        assert data[j] == rest[j - 1];
      }
    }
    if 0 < |data| {
      assert data[..0] == [];
    }
  }

  /** Only the last result of a trace can be a failure. */
  lemma {:induction false} TraceFailsLast(f: Runner, k: nat, i: int, data: seq<Ast>)
    requires Trace(f, k, i, data)
    ensures forall j :: 0 <= j < |data| - 1 ==> !IsFail(data[j])
    decreases |data|
  {
    if 1 < |data| {
      TraceFailsLast(f, k + 1, i + data[0].length, data[1..]);
      forall j | 1 <= j < |data| - 1
        ensures !IsFail(data[j])
      {
        assert data[j] == data[1..][j - 1];
      }
    }
  }

  /** The loop of `all` runs the sub-rules in turn: its data are a trace
      of at most the remaining sub-rules. */
  lemma {:induction false} AllLoopTrace(f: Runner, n: nat, k: nat, i: int)
    requires k <= n
    ensures var run := AllLoop(f, n, k, i);
      Trace(f, k, i, run.data) && k + |run.data| <= n
    decreases n - k
  {
    if k < n && !IsFail(f(k, i)) {
      var a := f(k, i);
      var rest := AllLoop(f, n, k + 1, i + a.length);
      AllLoopTrace(f, n, k + 1, i + a.length);
      assert ([a] + rest.data)[1..] == rest.data;
    }
  }

  /** Unless it stopped at a failure, the loop of `all` ran every remaining
      sub-rule and ends where their lengths add up to. */
  lemma {:induction false} AllLoopDone(f: Runner, n: nat, k: nat, i: int)
    requires k <= n
    ensures var run := AllLoop(f, n, k, i);
      !Stopped(run) ==> |run.data| == n - k && run.end == i + SumLen(run.data)
    decreases n - k
  {
    if k < n && !IsFail(f(k, i)) {
      var a := f(k, i);
      var rest := AllLoop(f, n, k + 1, i + a.length);
      var run := AllLoop(f, n, k, i);
      assert run == SeqRun([a] + rest.data, rest.end);
      if !Stopped(run) {
        if 0 < |rest.data| {
          assert run.data[|rest.data|] == rest.data[|rest.data| - 1];
        }
        assert !Stopped(rest);
        AllLoopDone(f, n, k + 1, i + a.length);
        SumLenCons(a, rest.data);
      }
    }
  }

  /** Converse of `AllLoopTrace` and `AllLoopDone`: a trace that covers all remaining
      sub-rules, or stops at a failure, is what the loop computes. */
  lemma {:induction false} AllLoopOfTrace(f: Runner, n: nat, k: nat, i: int, data: seq<Ast>)
    requires Trace(f, k, i, data) && k + |data| <= n
    requires k + |data| == n || (0 < |data| && IsFail(data[|data| - 1]))
    ensures AllLoop(f, n, k, i).data == data
    ensures (|data| == 0 || !IsFail(data[|data| - 1])) ==> AllLoop(f, n, k, i).end == i + SumLen(data)
    decreases n - k
  {
    if k < n {
      var a := data[0];
      if !IsFail(a) {
        if 1 < |data| {
          assert data[1..][|data[1..]| - 1] == data[|data| - 1];
        }
        AllLoopOfTrace(f, n, k + 1, i + a.length, data[1..]);
        assert [a] + data[1..] == data;
        SumLenCons(a, data[1..]);
      }
    }
  }

  // ----- many -----

  /** An attempt of the repetition's body at offset `p` ends it: it failed,
      or it reached the end of the input (`size`), or it consumed nothing. */
  predicate Stops(a: Ast, p: int, size: int)
  {
    p + a.length >= size || IsFail(a) || a.length <= 0
  }

  /** Every kept result of a repetition consumed something and ended before
      the end of the input, the first starting at `i`. */
  predicate Advances(i: int, size: int, items: seq<Ast>)
    decreases |items|
  {
    |items| == 0 ||
    (!Stops(items[0], i, size) && Advances(i + items[0].length, size, items[1..]))
  }

  /** The loop of `many`: attempt `k` runs at offset `i`. */
  function ManyLoop(f: Runner, size: int, k: nat, i: int): Run
    decreases size - i
  {
    var a := f(k, i);
    if Stops(a, i, size) then Run([], i, a.error)
    else
      var rest := ManyLoop(f, size, k + 1, i + a.length);
      Run([a] + rest.items, rest.end, rest.error)
  }

  /** One kept result of the loop of `many`, followed by the loop from
      where it ended. */
  lemma ManyStep(f: Runner, size: int, k: nat, i: int, e: int)
    requires !Stops(f(k, i), i, size) && e == i + f(k, i).length
    ensures var rest := ManyLoop(f, size, k + 1, e);
      ManyLoop(f, size, k, i) == Run([f(k, i)] + rest.items, rest.end, rest.error)
  {
  }

  /** The loop of `many` ends between its start and the end of the input. */
  lemma {:induction false} ManyLoopFits(f: Runner, size: int, k: nat, i: int)
    requires i <= size
    ensures i <= ManyLoop(f, size, k, i).end <= size
    decreases size - i
  {
    var a := f(k, i);
    if !Stops(a, i, size) {
      ManyLoopFits(f, size, k + 1, i + a.length);
    }
  }

  /** The loop of `many` keeps a trace of successes, each consuming and
      ending before the end of the input, and stops at the first attempt
      that does not, whose error it reports. */
  lemma {:induction false} ManyLoopSpec(f: Runner, size: int, k: nat, i: int)
    ensures var run := ManyLoop(f, size, k, i);
      && Trace(f, k, i, run.items) && Succeeded(run.items) && Advances(i, size, run.items)
      && run.end == i + SumLen(run.items)
      && Stops(f(k + |run.items|, run.end), run.end, size)
      && run.error == f(k + |run.items|, run.end).error
    decreases size - i
  {
    var a := f(k, i);
    if !Stops(a, i, size) {
      var run := ManyLoop(f, size, k, i);
      var rest := ManyLoop(f, size, k + 1, i + a.length);
      ManyLoopSpec(f, size, k + 1, i + a.length);
      assert run.items == [a] + rest.items;
      assert run.items[1..] == rest.items;
      SumLenCons(a, rest.items);
      SucceededCons(a, rest.items);
    }
  }

  /** Converse of `ManyLoopSpec`: such a trace followed by a stopping
      attempt is exactly what the loop returns. */
  lemma {:induction false} ManyLoopOfTrace(f: Runner, size: int, k: nat, i: int, items: seq<Ast>)
    requires Trace(f, k, i, items) && Advances(i, size, items)
    requires Stops(f(k + |items|, i + SumLen(items)), i + SumLen(items), size)
    ensures ManyLoop(f, size, k, i) == Run(items, i + SumLen(items), f(k + |items|, i + SumLen(items)).error)
    decreases |items|
  {
    if 0 < |items| {
      var a := items[0];
      SumLenCons(a, items[1..]);
      assert [a] + items[1..] == items;
      ManyLoopOfTrace(f, size, k + 1, i + a.length, items[1..]);
    }
  }

  // ----- cases -----

  /** The loop of `cases` from branch `k` of `n`, every branch at `i`. */
  function CasesLoop(f: Runner, n: nat, k: nat, i: int, tag: string): Ast
    decreases n - k
  {
    if k >= n then Fail(i, i, tag)
    else
      var a := f(k, i);
      if !IsFail(a) then Ast(i, a.length, i, tag, [a], "")
      else
        var r := CasesLoop(f, n, k + 1, i, tag);
        if !IsFail(r) then r else Fail(i, Max(a.error, r.error), tag)
  }

  /** With a fitting runner the loop of `cases` gives a fitting result. */
  lemma {:induction false} CasesLoopFits(f: Runner, n: nat, k: nat, i: int, tag: string, lo: int, hi: int)
    requires RunnerFits(f, lo, hi) && lo <= i <= hi
    ensures Fits(CasesLoop(f, n, k, i, tag), i, hi)
    decreases n - k
  {
    if k < n {
      assert Fits(f(k, i), i, hi);
      CasesLoopFits(f, n, k + 1, i, tag, lo, hi);
    }
  }

  /** The loop of `cases` returns the first succeeding branch, wrapped;
      when every branch fails it fails at `i` with the largest of `i` and
      the branches' errors. */
  lemma {:induction false} CasesLoopSpec(f: Runner, n: nat, k: nat, i: int, tag: string)
    ensures var r := CasesLoop(f, n, k, i, tag);
      && (!IsFail(r) ==>
            exists m :: k <= m < n
              && (forall j :: k <= j < m ==> IsFail(f(j, i)))
              && !IsFail(f(m, i))
              && r == Ast(i, f(m, i).length, i, tag, [f(m, i)], ""))
      && (IsFail(r) ==>
            && r.pos == i && r.tag == tag && i <= r.error
            && (forall j :: k <= j < n ==> IsFail(f(j, i)) && f(j, i).error <= r.error)
            && (r.error == i || exists j :: k <= j < n && r.error == f(j, i).error))
    decreases n - k
  {
    if k < n {
      CasesLoopSpec(f, n, k + 1, i, tag);
    }
  }

  // ----- the combinators -----

  /** `all(rules, tag)` over the `n` sub-rules that `f` runs: on success the
      sub-results, spanning from `i` to where the last ended; on failure the
      failing sub-result's position and tag with the farthest error seen. */
  function AllOf(f: Runner, n: nat, i: int, tag: string): Ast
  {
    var run := AllLoop(f, n, 0, i);
    if Stopped(run) then
      var a := run.data[|run.data| - 1];
      Fail(a.pos, MaxError(run.data, i), a.tag)
    else Ast(i, run.end - i, i, tag, run.data, "")
  }

  /** `many(rule, tag)` on an input of `size` characters: always a success
      holding the kept results, with the error of the attempt that stopped
      it. A body that succeeds without consuming would make the C++ loop
      forever; here it stops the repetition like a failure. */
  function ManyOf(f: Runner, size: int, i: int, tag: string): Ast
  {
    var run := ManyLoop(f, size, 0, i);
    Ast(i, run.end - i, run.error, tag, run.items, "")
  }

  /** `cases(rules, tag)` over the `n` branches that `f` runs at `i`. */
  function CasesOf(f: Runner, n: nat, i: int, tag: string): Ast
  {
    CasesLoop(f, n, 0, i, tag)
  }

  lemma AllOfFits(f: Runner, n: nat, i: int, tag: string, lo: int, hi: int)
    requires RunnerFits(f, lo, hi) && lo <= i <= hi
    ensures Fits(AllOf(f, n, i, tag), i, hi)
  {
    AllLoopFits(f, n, 0, i, lo, hi);
  }

  /** A repetition succeeds, spanning and keeping what its loop did. */
  lemma ManyOfRun(f: Runner, size: int, i: int, tag: string)
    requires i <= size
    ensures var r := ManyOf(f, size, i, tag); var run := ManyLoop(f, size, 0, i);
      && !IsFail(r) && i + r.length == run.end && i <= run.end <= size && r.data == run.items
  {
    ManyLoopFits(f, size, 0, i);
  }

  lemma ManyOfFits(f: Runner, size: int, i: int, tag: string)
    requires i <= size
    ensures Fits(ManyOf(f, size, i, tag), i, size)
  {
    ManyLoopFits(f, size, 0, i);
  }

  lemma CasesOfFits(f: Runner, n: nat, i: int, tag: string, lo: int, hi: int)
    requires RunnerFits(f, lo, hi) && lo <= i <= hi
    ensures Fits(CasesOf(f, n, i, tag), i, hi)
  {
    CasesLoopFits(f, n, 0, i, tag, lo, hi);
  }

  /** A sequence succeeds exactly when every sub-rule succeeds in turn, each
      where the previous one ended; it then spans them all and reports its
      start as its error. Otherwise it fails where its failing sub-rule did,
      reporting the farthest error seen. */
  lemma AllSpec(f: Runner, n: nat, i: int, tag: string, lo: int, hi: int)
    requires RunnerFits(f, lo, hi) && lo <= i <= hi
    ensures var r := AllOf(f, n, i, tag);
      && (!IsFail(r) ==>
            && r.pos == i && r.error == i && r.tag == tag && r.text == ""
            && Trace(f, 0, i, r.data) && |r.data| == n && Succeeded(r.data)
            && r.length == SumLen(r.data))
      && (IsFail(r) ==>
            exists data: seq<Ast> :: && Trace(f, 0, i, data) && 0 < |data| <= n
                                    && IsFail(data[|data| - 1])
                                    && r == Fail(data[|data| - 1].pos, MaxError(data, i), data[|data| - 1].tag))
  {
    var run := AllLoop(f, n, 0, i);
    AllLoopFits(f, n, 0, i, lo, hi);
    AllLoopTrace(f, n, 0, i);
    AllLoopDone(f, n, 0, i);
    TraceFailsLast(f, 0, i, run.data);
  }

  /** Result `j` of a successful sequence is sub-rule `j` run at some offset
      `p` within the input, the first at the start and every later one no
      earlier than where the first ended. */
  lemma AllPart(f: Runner, n: nat, i: int, tag: string, lo: int, hi: int, j: nat) returns (p: int)
    requires RunnerFits(f, lo, hi) && lo <= i <= hi && j < n
    requires !IsFail(AllOf(f, n, i, tag))
    ensures var r := AllOf(f, n, i, tag);
      && |r.data| == n && r.tag == tag && r.data[j] == f(j, p) && !IsFail(r.data[j])
      && lo <= p <= hi && (j == 0 ==> p == i) && (0 < j ==> i + r.data[0].length <= p)
  {
    var r := AllOf(f, n, i, tag);
    AllSpec(f, n, i, tag, lo, hi);
    p := TracePart(f, i, r.data, lo, hi, j);
  }

  lemma TracePart(f: Runner, i: int, data: seq<Ast>, lo: int, hi: int, j: nat) returns (p: int)
    requires RunnerFits(f, lo, hi) && lo <= i <= hi && j < |data|
    requires Trace(f, 0, i, data) && Succeeded(data)
    ensures data[j] == f(j, p) && lo <= p <= hi
    ensures j == 0 ==> p == i
    ensures 0 < j ==> i + data[0].length <= p
  {
    assert data[0] == f(0, i);
    if j == 0 {
      p := i;
    } else {
      var a := data[0];
      assert !IsFail(a);
      assert Fits(f(0, i), i, hi);
      assert Trace(f, 1, i + a.length, data[1..]);
      TraceAt(f, 1, i + a.length, data[1..], lo, hi);
      p := i + a.length + SumLen(data[1..][..j - 1]);
      assert data[j] == data[1..][j - 1];
    }
  }

  /** A total of lengths that are each zero or more is itself zero or
      more, and no smaller than the first of them. */
  lemma {:induction false} SumLenCovers(xs: seq<Ast>)
    requires forall j :: 0 <= j < |xs| ==> 0 <= xs[j].length
    ensures 0 <= SumLen(xs)
    ensures 0 < |xs| ==> xs[0].length <= SumLen(xs)
    decreases |xs|
  {
    if 0 < |xs| {
      forall j | 0 <= j < |xs[1..]|
        ensures 0 <= xs[1..][j].length
      {
        assert xs[1..][j] == xs[j + 1];
      }
      SumLenCovers(xs[1..]);
    }
  }

  /** A successful sequence spans at least what its first sub-rule,
      which succeeded, consumed. */
  lemma AllOfCovers(f: Runner, n: nat, i: int, tag: string, lo: int, hi: int)
    requires RunnerFits(f, lo, hi) && lo <= i <= hi && 0 < n
    requires !IsFail(AllOf(f, n, i, tag))
    ensures !IsFail(f(0, i)) && f(0, i).length <= AllOf(f, n, i, tag).length
  {
    var r := AllOf(f, n, i, tag);
    AllSpec(f, n, i, tag, lo, hi);
    TraceAt(f, 0, i, r.data, lo, hi);
    forall j | 0 <= j < |r.data|
      ensures 0 <= r.data[j].length
    {
      var p := i + SumLen(r.data[..j]);
      assert Fits(f(j, p), p, hi);
      assert !IsFail(r.data[j]);
    }
    SumLenCovers(r.data);
  }

  /** A sequence whose first sub-rule fails fails. */
  lemma AllFirstFails(f: Runner, n: nat, i: int, tag: string)
    requires 0 < n && IsFail(f(0, i))
    ensures IsFail(AllOf(f, n, i, tag))
  {
    AllLoopOfTrace(f, n, 0, i, [f(0, i)]);
  }

  /** Extending a trace at the front by a success run where it starts. */
  lemma TraceCons(f: Runner, k: nat, i: int, a: Ast, rest: seq<Ast>)
    requires a == f(k, i) && !IsFail(a) && Trace(f, k + 1, i + a.length, rest)
    ensures Trace(f, k, i, [a] + rest)
    ensures SumLen([a] + rest) == a.length + SumLen(rest)
    ensures Succeeded(rest) ==> Succeeded([a] + rest)
  {
    assert ([a] + rest)[1..] == rest;
    SumLenCons(a, rest);
    SucceededCons(a, rest);
  }

  /** A single result is a trace, a success one of its own length. */
  lemma TraceOne(f: Runner, k: nat, i: int)
    ensures Trace(f, k, i, [f(k, i)])
    ensures SumLen([f(k, i)]) == f(k, i).length
    ensures !IsFail(f(k, i)) ==> Succeeded([f(k, i)])
  {
    assert [f(k, i)][1..] == [];
  }

  /** Converse of `AllSpec` for success: when every sub-rule succeeds in
      turn, the sequence's result is exactly those results. */
  lemma AllOfTrace(f: Runner, n: nat, i: int, tag: string, data: seq<Ast>)
    requires Trace(f, 0, i, data) && |data| == n && Succeeded(data)
    ensures AllOf(f, n, i, tag) == Ast(i, SumLen(data), i, tag, data, "")
  {
    AllLoopOfTrace(f, n, 0, i, data);
  }

  /** Converse of `AllSpec` for failure: when the sub-rules run in turn up to
      a failing one, the sequence fails with that one's position and tag. */
  lemma AllFailOfTrace(f: Runner, n: nat, i: int, tag: string, data: seq<Ast>)
    requires Trace(f, 0, i, data) && 0 < |data| <= n && IsFail(data[|data| - 1])
    ensures AllOf(f, n, i, tag) == Fail(data[|data| - 1].pos, MaxError(data, i), data[|data| - 1].tag)
  {
    AllLoopOfTrace(f, n, 0, i, data);
  }

  /** A repetition always succeeds. It keeps the body's successes in turn,
      each consuming something and ending before the end of the input, and
      stops at the first attempt that does not, reporting that attempt's
      error as its own. */
  lemma ManySpec(f: Runner, size: int, i: int, tag: string)
    requires i <= size
    ensures var r := ManyOf(f, size, i, tag);
      && !IsFail(r) && r.pos == i && r.tag == tag && r.text == ""
      && Trace(f, 0, i, r.data) && Succeeded(r.data) && Advances(i, size, r.data)
      && r.length == SumLen(r.data)
      && Stops(f(|r.data|, i + r.length), i + r.length, size)
      && r.error == f(|r.data|, i + r.length).error
  {
    var run := ManyLoop(f, size, 0, i);
    ManyLoopFits(f, size, 0, i);
    ManyLoopSpec(f, size, 0, i);
    assert ManyOf(f, size, i, tag) == Ast(i, run.end - i, run.error, tag, run.items, "");
    assert i + (run.end - i) == run.end;
  }

  /** Every item a repetition keeps has property `P` when every success
      of its body at or after the repetition's start has it. */
  lemma ManyItemsAll(f: Runner, size: int, i: int, tag: string, lo: int, P: Ast -> bool)
    requires lo <= i <= size && RunnerFits(f, lo, size)
    requires forall k: nat, q: int :: i <= q <= size && !IsFail(f(k, q)) ==> P(f(k, q))
    ensures var r := ManyOf(f, size, i, tag); forall j :: 0 <= j < |r.data| ==> P(r.data[j])
  {
    var r := ManyOf(f, size, i, tag);
    ManySpec(f, size, i, tag);
    TraceAt(f, 0, i, r.data, lo, size);
    forall j | 0 <= j < |r.data|
      ensures P(r.data[j])
    {
      assert !IsFail(r.data[j]);
    }
  }

  /** Converse of `ManySpec`: successes of the body in turn followed by an
      attempt that stops the repetition are exactly its result. */
  lemma ManyOfTrace(f: Runner, size: int, i: int, tag: string, items: seq<Ast>)
    requires Trace(f, 0, i, items) && Advances(i, size, items)
    requires Stops(f(|items|, i + SumLen(items)), i + SumLen(items), size)
    ensures ManyOf(f, size, i, tag) == Ast(i, SumLen(items), f(|items|, i + SumLen(items)).error, tag, items, "")
  {
    ManyLoopOfTrace(f, size, 0, i, items);
  }

  /** An ordered choice succeeds exactly when some branch does; it then
      wraps the first succeeding branch's result, all branches being tried
      at the same offset. Otherwise it fails at its start with the largest
      of that start and the branches' errors. */
  lemma CasesSpec(f: Runner, n: nat, i: int, tag: string)
    ensures var r := CasesOf(f, n, i, tag);
      && (!IsFail(r) <==> exists m :: 0 <= m < n && !IsFail(f(m, i)))
      && (!IsFail(r) ==>
            exists m :: && 0 <= m < n
                        && (forall j :: 0 <= j < m ==> IsFail(f(j, i)))
                        && !IsFail(f(m, i))
                        && r == Ast(i, f(m, i).length, i, tag, [f(m, i)], ""))
      && (IsFail(r) ==>
            && r.pos == i && r.tag == tag && i <= r.error
            && (forall j :: 0 <= j < n ==> f(j, i).error <= r.error)
            && (r.error == i || exists j :: 0 <= j < n && r.error == f(j, i).error))
  {
    CasesLoopSpec(f, n, 0, i, tag);
  }

  /** The branch a successful choice took: the first that succeeds. */
  lemma CasesChosen(f: Runner, n: nat, i: int, tag: string) returns (m: nat)
    requires !IsFail(CasesOf(f, n, i, tag))
    ensures m < n && !IsFail(f(m, i)) && (forall j :: 0 <= j < m ==> IsFail(f(j, i)))
    ensures CasesOf(f, n, i, tag) == Ast(i, f(m, i).length, i, tag, [f(m, i)], "")
  {
    CasesLoopSpec(f, n, 0, i, tag);
    m :| && 0 <= m < n
         && (forall j :: 0 <= j < m ==> IsFail(f(j, i)))
         && !IsFail(f(m, i))
         && CasesOf(f, n, i, tag) == Ast(i, f(m, i).length, i, tag, [f(m, i)], "");
  }

  /** Converse of `CasesSpec`: the first succeeding branch is the one the
      choice returns. */
  lemma CasesOfFirst(f: Runner, n: nat, i: int, tag: string, m: nat)
    requires m < n && (forall j :: 0 <= j < m ==> IsFail(f(j, i))) && !IsFail(f(m, i))
    ensures CasesOf(f, n, i, tag) == Ast(i, f(m, i).length, i, tag, [f(m, i)], "")
  {
    CasesLoopSpec(f, n, 0, i, tag);
  }
}
