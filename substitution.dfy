/** Substitution of a value for the free occurrences of a variable. Where the
    value would be captured by a binder, the engine does not rename the binder:
    it leaves that abstraction as it is. */
module Substitution {
  import opened Terms
  import opened FreeVariables

  /** `e` with the free occurrences of `x` replaced by `v`. No name is free in the
      result unless it was free in `e`, or it is free in `v` and `x` was free in `e`;
      and nothing changes when `x` is not free in `e`. */
  function Substitute(x: string, v: Expr, e: Expr): (r: Expr)
    ensures FreeVars(r) <= FreeVars(e) + (if x in FreeVars(e) then FreeVars(v) else {})
    ensures !IsFreeIn(x, e) ==> r == e
  {
    match e
    case Var(n) => if n == x then v else e
    case Fun(y, b) =>
      if y == x || IsFreeIn(y, v) then e
      else Fun(y, Substitute(x, v, b))
    case App(l, r) => App(Substitute(x, v, l), Substitute(x, v, r))
  }

  /** The binder shadows the target: the abstraction comes back unchanged. */
  lemma SubstituteShadowed(x: string, v: Expr, b: Expr)
    ensures Substitute(x, v, Fun(x, b)) == Fun(x, b)
  {
  }

  /** Capture is blocked, not avoided: when the binder is free in the value,
      the abstraction comes back unchanged and no renaming takes place. */
  lemma SubstituteBlocked(x: string, y: string, v: Expr, b: Expr)
    requires x != y && IsFreeIn(y, v)
    ensures Substitute(x, v, Fun(y, b)) == Fun(y, b)
  {
  }

  /** Substituting a variable for itself changes nothing. */
  lemma {:induction false} SubstituteSelf(x: string, e: Expr)
    ensures Substitute(x, Var(x), e) == e
  {
    match e
    case Var(_) =>
    case Fun(y, b) => SubstituteSelf(x, b);
    case App(l, r) => SubstituteSelf(x, l); SubstituteSelf(x, r);
  }

  /** No binder of `e` that has a free `x` beneath it is free in `v`: the guard
      against capture never fires on the way to an occurrence of `x`. */
  predicate CaptureFree(x: string, v: Expr, e: Expr)
  {
    match e
    case Var(_) => true
    case Fun(y, b) => y == x || !IsFreeIn(x, b) || (!IsFreeIn(y, v) && CaptureFree(x, v, b))
    case App(l, r) => CaptureFree(x, v, l) && CaptureFree(x, v, r)
  }

  /** When the guard never fires, substitution removes every free `x` and brings
      in exactly the free names of `v` (if there was an `x` to replace). */
  lemma {:induction false} SubstituteExact(x: string, v: Expr, e: Expr)
    requires CaptureFree(x, v, e)
    ensures FreeVars(Substitute(x, v, e))
         == (FreeVars(e) - {x}) + (if x in FreeVars(e) then FreeVars(v) else {})
  {
    match e
    case Var(_) =>
    case Fun(y, b) =>
      if y != x && IsFreeIn(x, b) {
        SubstituteExact(x, v, b);
      }
    case App(l, r) =>
      SubstituteExact(x, v, l);
      SubstituteExact(x, v, r);
  }

  /** Without that condition the guard can leave `x` free: in `λy.x`
      the value `y` is not substituted for `x`. */
  lemma BlockedSubstitutionKeepsTarget()
    ensures Substitute("x", Var("y"), Fun("y", Var("x"))) == Fun("y", Var("x"))
    ensures "x" in FreeVars(Substitute("x", Var("y"), Fun("y", Var("x"))))
  {
  }

  /** Substituting a term with grammar names into another gives a term with grammar names. */
  lemma {:induction false} SubstituteWellFormed(x: string, v: Expr, e: Expr)
    requires WellFormed(v) && WellFormed(e)
    ensures WellFormed(Substitute(x, v, e))
  {
    match e
    case Var(_) =>
    case Fun(y, b) => SubstituteWellFormed(x, v, b);
    case App(l, r) => SubstituteWellFormed(x, v, l); SubstituteWellFormed(x, v, r);
  }
}
