/**
 * How the logarithm tests turn comparisons into a verdict. The dual-stack
 * calculator that runs an opstring is outside this model: one run of it is
 * given as the sequence of its steps, each step carrying the string
 * rendering of the top of the library's stack and of the reference stack
 * after that step.
 */
module Verification {
  import opened Wrappers

  /**
   * `Eval(bool, message)`: reports a failed check and hands its verdict
   * back unchanged.
   */
  function EvalBool(expression: bool, message: string): (r: bool)
    ensures r == expression
  {
    expression
  }

  /**
   * `Eval<T>(expected, actual, errorMsg)`: null-aware equality, with None
   * for null. Two nulls agree; null never agrees with a value; two values
   * agree when they are equal.
   */
  function Eval<T(==)>(expected: Option<T>, actual: Option<T>, errorMsg: string): (r: bool)
    ensures r <==> expected == actual
    ensures expected.None? && actual.None? ==> r
    ensures expected.None? != actual.None? ==> !r
  {
    var retValue := if expected.None? then actual.None? else actual.Some? && expected.value == actual.value;
    if !retValue then EvalBool(retValue, errorMsg) else true
  }

  /** The stack tops after one step of the dual-stack calculator. */
  datatype StepTops = StepTops(library: string, reference: string)

  /** The two stacks agree after each of the steps. */
  ghost predicate InSync(steps: seq<StepTops>)
  {
    forall i :: 0 <= i < |steps| ==> steps[i].library == steps[i].reference
  }

  /**
   * `VerifyLogString(opstring)`, given the steps the calculator takes on the
   * opstring: true exactly when the stacks agree after every step. `trace`
   * holds the verdict after each step; once false it stays false.
   */
  method VerifyLogString(steps: seq<StepTops>) returns (ret: bool, ghost trace: seq<bool>)
    ensures ret <==> forall i :: 0 <= i < |steps| ==> steps[i].library == steps[i].reference
    ensures |trace| == |steps|
    ensures forall k :: 0 <= k < |steps| ==> (trace[k] <==> InSync(steps[..k + 1]))
    ensures forall j, k :: 0 <= j <= k < |steps| && !trace[j] ==> !trace[k]
  {
    ret := true;
    trace := [];
    var i := 0;
    while i < |steps|
      invariant 0 <= i <= |steps|
      invariant ret <==> InSync(steps[..i])
      invariant |trace| == i
      invariant forall k :: 0 <= k < i ==> (trace[k] <==> InSync(steps[..k + 1]))
      invariant forall j, k :: 0 <= j <= k < i && !trace[j] ==> !trace[k]
      invariant i > 0 ==> trace[i - 1] == ret
    {
      var step := steps[i];
      var agree := Eval(Some(step.library), Some(step.reference), "Out of Sync stacks found.");
      assert steps[..i + 1] == steps[..i] + [step];
      ret := ret && agree;
      trace := trace + [ret];
      i := i + 1;
    }
    assert steps[..i] == steps;
  }
}
