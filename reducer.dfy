/** The normaliser as the engine runs it: one trace shared by every recursive
    call and pushed to in place, and given back beside the term. */
module Reducer {
  import opened Terms
  import opened Substitution
  import Reduction

  class StepLog {
    /** The trace of contractions, shared down the recursion. */
    var steps: seq<string>

    /** A reduction started without a trace starts from an empty one. */
    constructor ()
      ensures steps == []
    {
      steps := [];
    }

    /** Reduces `e`, pushing one entry onto `steps` per contraction. What it returns,
        and the trace it leaves, are those of `Reduction.Reduce` from the trace it
        found; the trace it returns is the one it holds. */
    method Reduce(e: Expr, fuel: nat) returns (r: Reduction.Outcome)
      modifies this
      ensures r == Reduction.Reduce(e, old(steps), fuel)
      ensures steps == r.steps
      decreases fuel
    {
      if fuel == 0 {
        return Reduction.OutOfFuel(steps);
      }
      match e
      case Var(_) =>
        r := Reduction.Done(e, steps);
      case Fun(x, b) =>
        var reducedBody := Reduce(b, fuel - 1);
        if reducedBody.Done? {
          r := Reduction.Done(Fun(x, reducedBody.expr), reducedBody.steps);
        } else {
          r := reducedBody;
        }
      case App(l, a) =>
        if l.Fun? {
          var substituted := Substitute(l.v, a, l.body);
          steps := steps + [Reduction.StepEntry(l.v, l.body, substituted)];
          r := Reduce(substituted, fuel - 1);
        } else {
          var reducedLeft := Reduce(l, fuel - 1);
          if reducedLeft.OutOfFuel? {
            r := reducedLeft;
          } else if reducedLeft.expr.Fun? {
            var f := reducedLeft.expr;
            var substituted := Substitute(f.v, a, f.body);
            steps := steps + [Reduction.StepEntry(f.v, f.body, substituted)];
            r := Reduce(substituted, fuel - 1);
          } else {
            var reducedRight := Reduce(a, fuel - 1);
            if reducedRight.Done? {
              r := Reduction.Done(App(reducedLeft.expr, reducedRight.expr), reducedRight.steps);
            } else {
              r := reducedRight;
            }
          }
        }
    }
  }
}
