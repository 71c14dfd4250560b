/** Whether a variable occurs free in a term, used to detect the risk of capture. */
module FreeVariables {
  import opened Terms

  /** The set of names that occur free in a term: the reference definition. */
  ghost function FreeVars(e: Expr): set<string>
  {
    match e
    case Var(n) => {n}
    case Fun(x, b) => FreeVars(b) - {x}
    case App(l, r) => FreeVars(l) + FreeVars(r)
  }

  /** The occurrence test as the engine runs it: a binder over the same name
      hides its whole body from the search. */
  function IsFreeIn(x: string, e: Expr): (r: bool)
    ensures r <==> x in FreeVars(e)
  {
    match e
    case Var(n) => n == x
    case Fun(y, b) => y != x && IsFreeIn(x, b)
    case App(l, r) => IsFreeIn(x, l) || IsFreeIn(x, r)
  }

  /** An abstraction over `x` hides `x` whatever its body holds; an abstraction
      over any other name is transparent to the search. */
  lemma BinderShadows(x: string, y: string, b: Expr)
    ensures x == y ==> !IsFreeIn(x, Fun(y, b))
    ensures x != y ==> (IsFreeIn(x, Fun(y, b)) <==> IsFreeIn(x, b))
  {
  }
}
