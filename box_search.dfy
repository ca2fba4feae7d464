/** The depth-first contract-and-bisect loop of the CtcExist and CtcForAll
    tests: a stack of boxes whose top is popped into sol and contracted;
    a non-empty sol is bisected on component 0 and both halves are pushed,
    first then second, so the second (right) half is examined next. The
    loop runs while the stack is non-empty and sol is wider than 1e-03.
    The contractor is a caller-supplied function on boxes; the stack is a
    sequence whose last element is the top. */
module CtcSearch {
  import opened ExtReals
  import opened Boxes

  /** The width threshold of the loop guard, 1e-03. */
  const MinWidth: real := 0.001

  /** bisect(0) uses the default ratio of IntervalVector::bisect, 1/2. */
  const HalfRatio: real := 0.5

  /** A contractor keeps the dimension of the box it narrows. */
  ghost predicate KeepsDim(contract: Box -> Box) {
    forall b: Box :: |contract(b)| == |b|
  }

  ghost predicate SameDims(stack: seq<Box>, n: nat) {
    forall j :: 0 <= j < |stack| ==> |stack[j]| == n
  }

  /** The loop guard: the stack is non-empty and sol.max_diam() > 1e-03. */
  predicate Continues(stack: seq<Box>, sol: Box) {
    |stack| > 0 && Lt(Fin(MinWidth), MaxDiam(sol))
  }

  datatype State = State(stack: seq<Box>, sol: Box)

  /** One iteration: pop the top into sol, contract it, and push the two
      halves of a non-empty result. */
  function Step(contract: Box -> Box, n: nat, s: State): (r: State)
    requires n >= 1 && KeepsDim(contract) && SameDims(s.stack, n) && |s.stack| > 0
    ensures SameDims(r.stack, n) && |r.sol| == n
  {
    var top := s.stack[|s.stack| - 1];
    var rest := s.stack[..|s.stack| - 1];
    var sol := contract(top);
    if IsEmptyBox(sol) then
      State(rest, sol)
    else
      var halves := BisectAt(sol, 0, HalfRatio);
      State(rest + [halves.0, halves.1], sol)
  }

  /** At most fuel iterations of the loop, stopping as soon as the guard
      fails. */
  function Run(contract: Box -> Box, n: nat, s: State, fuel: nat): (r: State)
    requires n >= 1 && KeepsDim(contract) && SameDims(s.stack, n)
    ensures SameDims(r.stack, n)
    decreases fuel
  {
    if fuel == 0 || !Continues(s.stack, s.sol) then s
    else Run(contract, n, Step(contract, n, s), fuel - 1)
  }

  /** One more round of Run is one Step, while the guard holds. */
  lemma {:induction false} RunUnfold(contract: Box -> Box, n: nat, s: State, fuel: nat)
    requires n >= 1 && KeepsDim(contract) && SameDims(s.stack, n)
    requires fuel > 0 && Continues(s.stack, s.sol)
    ensures Run(contract, n, s, fuel) == Run(contract, n, Step(contract, n, s), fuel - 1)
  {
  }

  /** What one iteration does to the stack: sol is the contraction of the
      old top; an empty sol leaves the stack popped, one shorter; otherwise
      the stack below the old top is unchanged and the first then the
      second half of bisect(0) are pushed, one longer. */
  lemma {:induction false} StepStack(contract: Box -> Box, n: nat, s: State)
    requires n >= 1 && KeepsDim(contract) && SameDims(s.stack, n) && |s.stack| > 0
    ensures var r := Step(contract, n, s);
      r.sol == contract(s.stack[|s.stack| - 1])
    ensures var r := Step(contract, n, s);
      IsEmptyBox(r.sol) ==> r.stack == s.stack[..|s.stack| - 1]
    ensures var r := Step(contract, n, s);
      !IsEmptyBox(r.sol) ==>
        && r.stack[..|s.stack| - 1] == s.stack[..|s.stack| - 1]
        && r.stack[|r.stack| - 2] == BisectAt(r.sol, 0, HalfRatio).0
        && r.stack[|r.stack| - 1] == BisectAt(r.sol, 0, HalfRatio).1
    ensures var r := Step(contract, n, s);
      |r.stack| == if IsEmptyBox(r.sol) then |s.stack| - 1 else |s.stack| + 1
  {
    var r := Step(contract, n, s);
    var rest := s.stack[..|s.stack| - 1];
    if !IsEmptyBox(r.sol) {
      var halves := BisectAt(r.sol, 0, HalfRatio);
      assert r.stack == rest + [halves.0, halves.1];
      assert (rest + [halves.0, halves.1])[..|rest|] == rest;
    }
  }

  /** The two halves pushed cover exactly the contracted sol and agree with
      it off component 0. */
  lemma {:induction false} StepHalvesPartition(contract: Box -> Box, n: nat, s: State)
    requires n >= 1 && KeepsDim(contract) && SameDims(s.stack, n) && |s.stack| > 0
    requires !IsEmptyBox(Step(contract, n, s).sol)
    ensures var r := Step(contract, n, s);
      && (forall p :: InBox(r.sol, p) <==> InBox(r.stack[|r.stack| - 2], p) || InBox(r.stack[|r.stack| - 1], p))
      && (forall i :: 1 <= i < n ==> r.stack[|r.stack| - 2][i] == r.sol[i] && r.stack[|r.stack| - 1][i] == r.sol[i])
  {
    var r := Step(contract, n, s);
    StepStack(contract, n, s);
    BisectAtPartition(r.sol, 0, HalfRatio);
  }

  /** LIFO: after a non-empty contraction, the box examined next is the
      second (right) half just pushed. */
  lemma {:induction false} RightHalfExaminedNext(contract: Box -> Box, n: nat, s: State)
    requires n >= 1 && KeepsDim(contract) && SameDims(s.stack, n) && |s.stack| > 0
    requires !IsEmptyBox(Step(contract, n, s).sol)
    ensures var r := Step(contract, n, s);
      Step(contract, n, r).sol == contract(BisectAt(r.sol, 0, HalfRatio).1)
  {
    var r := Step(contract, n, s);
    StepStack(contract, n, s);
    StepStack(contract, n, r);
  }

  /** The contractor never removes a point satisfying S. */
  ghost predicate SoundFor(contract: Box -> Box, S: seq<real> -> bool) {
    forall b, p {:trigger InBox(contract(b), p)} :: InBox(b, p) && S(p) ==> InBox(contract(b), p)
  }

  /** Every point of box satisfying S lies in some box of the stack. */
  ghost predicate Covers(stack: seq<Box>, box: Box, S: seq<real> -> bool) {
    forall p :: InBox(box, p) && S(p) ==> InSome(stack, p)
  }

  /** A point of a non-empty sol is in one of its two halves. */
  lemma {:induction false} InSomeHalf(sol: Box, p: seq<real>)
    requires |sol| >= 1 && !IsEmptyBox(sol) && InBox(sol, p)
    ensures InBox(BisectAt(sol, 0, HalfRatio).0, p) || InBox(BisectAt(sol, 0, HalfRatio).1, p)
  {
    BisectAtPartition(sol, 0, HalfRatio);
  }

  /** A point in a box below the top is still in that box after a step. */
  lemma {:induction false} StepKeepsBelow(contract: Box -> Box, n: nat, s: State, j: nat, p: seq<real>)
    requires n >= 1 && KeepsDim(contract) && SameDims(s.stack, n) && |s.stack| > 0
    requires j < |s.stack| - 1 && InBox(s.stack[j], p)
    ensures InSome(Step(contract, n, s).stack, p)
  {
    var r := Step(contract, n, s);
    var k := |s.stack| - 1;
    StepStack(contract, n, s);
    assert s.stack[..k][j] == s.stack[j];
    assert r.stack[..k][j] == r.stack[j];
    assert r.stack[j] == s.stack[j];
    assert j < |r.stack| && InBox(r.stack[j], p);
  }

  /** A solution in the top box is in one of the halves pushed. */
  lemma {:induction false} StepKeepsTop(contract: Box -> Box, n: nat, s: State, p: seq<real>, S: seq<real> -> bool)
    requires n >= 1 && KeepsDim(contract) && SameDims(s.stack, n) && |s.stack| > 0
    requires SoundFor(contract, S) && InBox(s.stack[|s.stack| - 1], p) && S(p)
    ensures InSome(Step(contract, n, s).stack, p)
  {
    var r := Step(contract, n, s);
    StepStack(contract, n, s);
    assert InBox(contract(s.stack[|s.stack| - 1]), p);
    assert InBox(r.sol, p);
    InSomeHalf(r.sol, p);
    var m := |r.stack|;
    assert InBox(r.stack[m - 2], p) || InBox(r.stack[m - 1], p);
  }

  /** A solution on the stack is still on it after a step. */
  lemma {:induction false} StepKeepsPoint(contract: Box -> Box, n: nat, s: State, p: seq<real>, S: seq<real> -> bool)
    requires n >= 1 && KeepsDim(contract) && SameDims(s.stack, n) && |s.stack| > 0
    requires SoundFor(contract, S) && S(p) && InSome(s.stack, p)
    ensures InSome(Step(contract, n, s).stack, p)
  {
    var j :| 0 <= j < |s.stack| && InBox(s.stack[j], p);
    if j < |s.stack| - 1 {
      StepKeepsBelow(contract, n, s, j, p);
    } else {
      StepKeepsTop(contract, n, s, p, S);
    }
  }

  /** A solution on the stack is still on it when the loop stops. */
  lemma {:induction false} RunKeepsPoint(contract: Box -> Box, n: nat, s: State, fuel: nat, p: seq<real>, S: seq<real> -> bool)
    requires n >= 1 && KeepsDim(contract) && SameDims(s.stack, n)
    requires SoundFor(contract, S) && S(p) && InSome(s.stack, p)
    ensures InSome(Run(contract, n, s, fuel).stack, p)
    decreases fuel
  {
    if fuel > 0 && Continues(s.stack, s.sol) {
      var s' := Step(contract, n, s);
      StepKeepsPoint(contract, n, s, p, S);
      RunKeepsPoint(contract, n, s', fuel - 1, p, S);
      RunUnfold(contract, n, s, fuel);
    }
  }

  /** With a sound contractor no solution is lost: at exit every point of
      the initial box satisfying S is in a box left on the stack. */
  lemma {:induction false} RunKeepsSolutions(contract: Box -> Box, n: nat, s: State, fuel: nat, box: Box, S: seq<real> -> bool)
    requires n >= 1 && KeepsDim(contract) && SameDims(s.stack, n)
    requires SoundFor(contract, S) && Covers(s.stack, box, S)
    ensures Covers(Run(contract, n, s, fuel).stack, box, S)
  {
    forall p | InBox(box, p) && S(p)
      ensures InSome(Run(contract, n, s, fuel).stack, p)
    {
      RunKeepsPoint(contract, n, s, fuel, p, S);
    }
  }

  /** A run started as the tests start it, with [box] as the stack and box
      as sol, ends with a stack that still holds every solution in box. */
  lemma {:induction false} FirstRunKeepsSolutions(contract: Box -> Box, box: Box, fuel: nat, S: seq<real> -> bool)
    requires |box| >= 1 && KeepsDim(contract) && SoundFor(contract, S)
    ensures Covers(Run(contract, |box|, State([box], box), fuel).stack, box, S)
  {
    forall p | InBox(box, p) && S(p)
      ensures InSome([box], p)
    {
      assert [box][0] == box;
    }
    RunKeepsSolutions(contract, |box|, State([box], box), fuel, box, S);
  }

  /** One pass of the loop body: the top box is taken off the stack and
      becomes sol, the contractor narrows it, and a non-empty result is cut
      in half on component 0, the lower half pushed before the upper one. */
  method PopContractPush(contract: Box -> Box, n: nat, stack: seq<Box>, sol: Box)
    returns (stack': seq<Box>, sol': Box)
    requires n >= 1 && KeepsDim(contract) && SameDims(stack, n) && |stack| > 0
    ensures State(stack', sol') == Step(contract, n, State(stack, sol))
  {
    sol' := stack[|stack| - 1];
    stack' := stack[..|stack| - 1];
    sol' := contract(sol');
    if !IsEmptyBox(sol') {
      var p := BisectAt(sol', 0, HalfRatio);
      stack' := stack' + [p.0];
      stack' := stack' + [p.1];
      assert stack' == stack[..|stack| - 1] + [p.0, p.1];
    }
  }

  /** The while loop, with at most fuel iterations: the final stack and sol
      are those of Run; when it stops before the fuel is spent the guard is
      false, and a non-empty stack then means sol is at most 1e-03 wide. */
  method Search(contract: Box -> Box, n: nat, stack0: seq<Box>, sol0: Box, fuel: nat)
    returns (stack: seq<Box>, sol: Box, steps: nat)
    requires n >= 1 && KeepsDim(contract) && SameDims(stack0, n)
    ensures State(stack, sol) == Run(contract, n, State(stack0, sol0), fuel)
    ensures steps <= fuel
    ensures steps < fuel ==> !Continues(stack, sol)
    ensures steps < fuel && |stack| > 0 ==> Le(MaxDiam(sol), Fin(MinWidth))
  {
    stack, sol, steps := stack0, sol0, 0;
    var left := fuel;
    while left > 0 && Continues(stack, sol)
      invariant steps + left == fuel
      invariant SameDims(stack, n)
      invariant Run(contract, n, State(stack, sol), left) == Run(contract, n, State(stack0, sol0), fuel)
      decreases left
    {
      RunUnfold(contract, n, State(stack, sol), left);
      stack, sol := PopContractPush(contract, n, stack, sol);
      steps := steps + 1;
      left := left - 1;
    }
    LeTotal(MaxDiam(sol), Fin(MinWidth));
  }

  /** The clean-up between the two runs: boxes are taken off the top until
      the stack is empty. */
  method Drain(stack: seq<Box>) returns (rest: seq<Box>)
    ensures rest == []
  {
    rest := stack;
    while |rest| > 0
      decreases |rest|
    {
      rest := rest[..|rest| - 1];
    }
  }

  /** test01: a run from [box] with one contractor, the drain, and a second
      run restarted from [box] with sol = box with the other contractor. */
  method TwoRuns(first: Box -> Box, second: Box -> Box, box: Box, fuel: nat)
    returns (stack1: seq<Box>, sol1: Box, stack2: seq<Box>, sol2: Box)
    requires |box| >= 1 && KeepsDim(first) && KeepsDim(second)
    ensures State(stack1, sol1) == Run(first, |box|, State([box], box), fuel)
    ensures State(stack2, sol2) == Run(second, |box|, State([box], box), fuel)
  {
    var stack: seq<Box> := [];
    stack := stack + [box];
    var sol := box;
    var steps;
    stack, sol, steps := Search(first, |box|, stack, sol, fuel);
    stack1, sol1 := stack, sol;
    stack := Drain(stack);
    stack := stack + [box];
    sol := box;
    stack, sol, steps := Search(second, |box|, stack, sol, fuel);
    stack2, sol2 := stack, sol;
  }
}
