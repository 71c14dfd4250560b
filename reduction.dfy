/** The normaliser as a function of the term and of the trace so far.
    `fuel` bounds the depth of recursive calls, standing for the call stack the
    engine runs on; when it is used up the outcome says so and keeps the trace
    entries recorded until then. */
module Reduction {
  import opened Terms
  import opened Substitution

  /** What a call to the normaliser gives back: the normal form and the whole trace,
      or, when the depth bound is reached first, the trace recorded until then. */
  datatype Outcome =
    | Done(expr: Expr, steps: seq<string>)
    | OutOfFuel(steps: seq<string>)
  {
    /** The same outcome with `s` in front of its trace. */
    function After(s: seq<string>): Outcome
    {
      match this
      case Done(n, t) => Done(n, s + t)
      case OutOfFuel(t) => OutOfFuel(s + t)
    }
  }

  /** The trace entry for contracting `λx.body` against an argument:
      the abstraction, an arrow, and the term after substitution. */
  function StepEntry(x: string, body: Expr, substituted: Expr): string
  {
    "&#955;" + x + "." + Show(body) + "\t&rarr;\t" + Show(substituted)
  }

  /** No application anywhere in the term has an abstraction on its left. */
  predicate IsNormal(e: Expr)
  {
    match e
    case Var(_) => true
    case Fun(_, b) => IsNormal(b)
    case App(l, r) => !l.Fun? && IsNormal(l) && IsNormal(r)
  }

  /** Nesting depth of a term, counting the leaves. */
  function Height(e: Expr): nat
  {
    match e
    case Var(_) => 1
    case Fun(_, b) => 1 + Height(b)
    case App(l, r) => 1 + (if Height(l) < Height(r) then Height(r) else Height(l))
  }

  /** Reduction to normal form. A redex with an abstraction on the left is
      contracted at once; otherwise the left side is reduced to normal form first
      (under its binders too) and, if it became an abstraction, contracted against
      the original right side; otherwise the right side is reduced too. Because the
      function side is normalised before the outer contraction, this is not
      leftmost-outermost order. Every contraction appends one entry to `steps`.
      The trace only grows, and a completed result has no redex left. */
  function Reduce(e: Expr, steps: seq<string>, fuel: nat): (r: Outcome)
    ensures steps <= r.steps
    ensures r.Done? ==> IsNormal(r.expr)
    decreases fuel
  {
    if fuel == 0 then OutOfFuel(steps)
    else
      match e
      case Var(_) => Done(e, steps)
      case Fun(x, b) =>
        var rb := Reduce(b, steps, fuel - 1);
        if rb.OutOfFuel? then rb else Done(Fun(x, rb.expr), rb.steps)
      case App(l, a) =>
        if l.Fun? then
          var sub := Substitute(l.v, a, l.body);
          Reduce(sub, steps + [StepEntry(l.v, l.body, sub)], fuel - 1)
        else
          var rl := Reduce(l, steps, fuel - 1);
          if rl.OutOfFuel? then rl
          else if rl.expr.Fun? then
            var sub := Substitute(rl.expr.v, a, rl.expr.body);
            Reduce(sub, rl.steps + [StepEntry(rl.expr.v, rl.expr.body, sub)], fuel - 1)
          else
            var rr := Reduce(a, rl.steps, fuel - 1);
            if rr.OutOfFuel? then rr else Done(App(rl.expr, rr.expr), rr.steps)
  }

  /** A variable is returned as it is, with no step recorded. */
  lemma ReduceVar(x: string, steps: seq<string>, fuel: nat)
    requires fuel > 0
    ensures Reduce(Var(x), steps, fuel) == Done(Var(x), steps)
  {
  }

  /** Normal forms are fixed points: given stack enough for the term,
      it comes back unchanged and the trace is left alone. */
  lemma {:induction false} ReduceFixesNormal(n: Expr, steps: seq<string>, fuel: nat)
    requires IsNormal(n) && Height(n) <= fuel
    ensures Reduce(n, steps, fuel) == Done(n, steps)
  {
    match n
    case Var(_) =>
    case Fun(_, b) => ReduceFixesNormal(b, steps, fuel - 1);
    case App(l, r) =>
      ReduceFixesNormal(l, steps, fuel - 1);
      ReduceFixesNormal(r, steps, fuel - 1);
  }

  /** Reducing a result again changes neither the term nor the trace. */
  lemma {:induction false} ReduceIdempotent(e: Expr, steps: seq<string>, fuel: nat, steps': seq<string>, fuel': nat)
    requires Reduce(e, steps, fuel).Done?
    requires Height(Reduce(e, steps, fuel).expr) <= fuel'
    ensures Reduce(Reduce(e, steps, fuel).expr, steps', fuel') == Done(Reduce(e, steps, fuel).expr, steps')
  {
    ReduceFixesNormal(Reduce(e, steps, fuel).expr, steps', fuel');
  }

  /** A completed reduction is not changed by a deeper stack. */
  lemma {:induction false} ReduceMoreFuel(e: Expr, steps: seq<string>, fuel: nat, fuel': nat)
    requires fuel <= fuel' && Reduce(e, steps, fuel).Done?
    ensures Reduce(e, steps, fuel') == Reduce(e, steps, fuel)
    decreases fuel
  {
    match e
    case Var(_) =>
    case Fun(_, b) => ReduceMoreFuel(b, steps, fuel - 1, fuel' - 1);
    case App(l, a) =>
      if l.Fun? {
        var sub := Substitute(l.v, a, l.body);
        ReduceMoreFuel(sub, steps + [StepEntry(l.v, l.body, sub)], fuel - 1, fuel' - 1);
      } else {
        ReduceMoreFuel(l, steps, fuel - 1, fuel' - 1);
        var rl := Reduce(l, steps, fuel - 1);
        if rl.expr.Fun? {
          var sub := Substitute(rl.expr.v, a, rl.expr.body);
          ReduceMoreFuel(sub, rl.steps + [StepEntry(rl.expr.v, rl.expr.body, sub)], fuel - 1, fuel' - 1);
        } else {
          ReduceMoreFuel(a, rl.steps, fuel - 1, fuel' - 1);
        }
      }
  }

  /** The shared trace is only appended to: what a call records does not depend
      on what the trace held before, which stays in front, unchanged. */
  lemma {:induction false} ReduceAnyTrace(e: Expr, pre: seq<string>, steps: seq<string>, fuel: nat)
    ensures Reduce(e, pre + steps, fuel) == Reduce(e, steps, fuel).After(pre)
    decreases fuel
  {
    if fuel > 0 {
      match e
      case Var(_) =>
      case Fun(_, b) =>
        ReduceAnyTrace(b, pre, steps, fuel - 1);
      case App(l, a) =>
        if l.Fun? {
          var sub := Substitute(l.v, a, l.body);
          var entry := StepEntry(l.v, l.body, sub);
          assert pre + steps + [entry] == pre + (steps + [entry]);
          ReduceAnyTrace(sub, pre, steps + [entry], fuel - 1);
        } else {
          ReduceAnyTrace(l, pre, steps, fuel - 1);
          var rl := Reduce(l, steps, fuel - 1);
          if rl.Done? {
            if rl.expr.Fun? {
              var sub := Substitute(rl.expr.v, a, rl.expr.body);
              var entry := StepEntry(rl.expr.v, rl.expr.body, sub);
              assert pre + rl.steps + [entry] == pre + (rl.steps + [entry]);
              ReduceAnyTrace(sub, pre, rl.steps + [entry], fuel - 1);
            } else {
              ReduceAnyTrace(a, pre, rl.steps, fuel - 1);
            }
          }
        }
    }
  }

  /** In particular a call given a non-empty trace records what it would record
      starting from an empty one. */
  lemma ReduceFromEmpty(e: Expr, steps: seq<string>, fuel: nat)
    ensures Reduce(e, steps, fuel) == Reduce(e, [], fuel).After(steps)
  {
    assert steps + [] == steps;
    ReduceAnyTrace(e, steps, [], fuel);
  }

  /** One contraction anywhere in `e` gives `e'`, and `entry` is the trace entry
      for the redex contracted. Substitution is the engine's own, guard included. */
  predicate Labelled(e: Expr, e': Expr, entry: string)
  {
    match e
    case Var(_) => false
    case Fun(x, b) => e'.Fun? && e'.v == x && Labelled(b, e'.body, entry)
    case App(l, r) =>
      (l.Fun? && e' == Substitute(l.v, r, l.body) && entry == StepEntry(l.v, l.body, e'))
      || (e'.App? && e'.right == r && Labelled(l, e'.left, entry))
      || (e'.App? && e'.left == l && Labelled(r, e'.right, entry))
  }

  /** `p` is a chain of terms, each obtained from the one before by the
      contraction described by the matching entry of `t`. */
  ghost predicate Derivation(p: seq<Expr>, t: seq<string>)
  {
    |p| == |t| + 1 && forall i :: 0 <= i < |t| ==> Labelled(p[i], p[i + 1], t[i])
  }

  lemma DerivationJoin(p: seq<Expr>, t: seq<string>, q: seq<Expr>, u: seq<string>)
    requires Derivation(p, t) && Derivation(q, u) && p[|p| - 1] == q[0]
    ensures Derivation(p + q[1..], t + u)
  {
    var pq, tu := p + q[1..], t + u;
    forall i | 0 <= i < |tu| ensures Labelled(pq[i], pq[i + 1], tu[i]) {
      if i < |t| {
        assert pq[i] == p[i] && pq[i + 1] == p[i + 1] && tu[i] == t[i];
      } else {
        assert pq[i] == q[i - |t|] && pq[i + 1] == q[i - |t| + 1] && tu[i] == u[i - |t|];
      }
    }
  }

  ghost function UnderFun(x: string, p: seq<Expr>): (q: seq<Expr>)
    ensures |q| == |p| && forall i :: 0 <= i < |p| ==> q[i] == Fun(x, p[i])
  {
    seq(|p|, i requires 0 <= i < |p| => Fun(x, p[i]))
  }

  ghost function OnLeft(p: seq<Expr>, r: Expr): (q: seq<Expr>)
    ensures |q| == |p| && forall i :: 0 <= i < |p| ==> q[i] == App(p[i], r)
  {
    seq(|p|, i requires 0 <= i < |p| => App(p[i], r))
  }

  ghost function OnRight(l: Expr, p: seq<Expr>): (q: seq<Expr>)
    ensures |q| == |p| && forall i :: 0 <= i < |p| ==> q[i] == App(l, p[i])
  {
    seq(|p|, i requires 0 <= i < |p| => App(l, p[i]))
  }

  lemma DerivationUnderFun(x: string, p: seq<Expr>, t: seq<string>)
    requires Derivation(p, t)
    ensures Derivation(UnderFun(x, p), t)
  {
    var q := UnderFun(x, p);
    forall i | 0 <= i < |t| ensures Labelled(q[i], q[i + 1], t[i]) {
      assert Labelled(p[i], p[i + 1], t[i]);
    }
  }

  lemma DerivationOnLeft(p: seq<Expr>, t: seq<string>, r: Expr)
    requires Derivation(p, t)
    ensures Derivation(OnLeft(p, r), t)
  {
    var q := OnLeft(p, r);
    forall i | 0 <= i < |t| ensures Labelled(q[i], q[i + 1], t[i]) {
      assert Labelled(p[i], p[i + 1], t[i]);
    }
  }

  lemma DerivationOnRight(l: Expr, p: seq<Expr>, t: seq<string>)
    requires Derivation(p, t)
    ensures Derivation(OnRight(l, p), t)
  {
    var q := OnRight(l, p);
    forall i | 0 <= i < |t| ensures Labelled(q[i], q[i + 1], t[i]) {
      assert Labelled(p[i], p[i + 1], t[i]);
    }
  }

  lemma PrefixCancel(u: seq<string>, x: seq<string>, y: seq<string>)
    requires u + x == u + y
    ensures x == y
  {
    assert x == (u + x)[|u|..];
    assert y == (u + y)[|u|..];
  }

  /** A chain, one contraction from its last term, then a chain from there. */
  lemma JoinStep(p: seq<Expr>, t: seq<string>, e': Expr, entry: string, q: seq<Expr>, u: seq<string>)
    requires Derivation(p, t) && Labelled(p[|p| - 1], e', entry)
    requires Derivation(q, u) && q[0] == e'
    ensures Derivation(p + q, t + [entry] + u)
  {
    var pq, tu := p + q, t + [entry] + u;
    forall i | 0 <= i < |tu| ensures Labelled(pq[i], pq[i + 1], tu[i]) {
      if i < |t| {
        assert pq[i] == p[i] && pq[i + 1] == p[i + 1] && tu[i] == t[i];
      } else if i == |t| {
        assert pq[i] == p[|p| - 1] && pq[i + 1] == q[0] && tu[i] == entry;
      } else {
        assert pq[i] == q[i - |p|] && pq[i + 1] == q[i - |p| + 1] && tu[i] == u[i - |p|];
      }
    }
  }

  /** One trace entry per contraction, in order: a completed reduction appends
      entries `t` and there is a chain of terms from `e` to the result in which
      the i-th link is the contraction that the i-th new entry describes. */
  lemma {:induction false} ReduceDerivation(e: Expr, steps: seq<string>, fuel: nat)
    returns (p: seq<Expr>, t: seq<string>)
    requires Reduce(e, steps, fuel).Done?
    ensures Reduce(e, steps, fuel).steps == steps + t
    ensures Derivation(p, t) && p[0] == e && p[|p| - 1] == Reduce(e, steps, fuel).expr
    decreases fuel, 1
  {
    match e
    case Var(_) =>
      p, t := [e], [];
    case Fun(x, b) =>
      var pb, tb := ReduceDerivation(b, steps, fuel - 1);
      DerivationUnderFun(x, pb, tb);
      p, t := UnderFun(x, pb), tb;
    case App(l, a) =>
      if l.Fun? {
        p, t := RedexDerivation(l, a, steps, fuel);
      } else if Reduce(l, steps, fuel - 1).expr.Fun? {
        p, t := HiddenRedexDerivation(l, a, steps, fuel);
      } else {
        p, t := StuckDerivation(l, a, steps, fuel);
      }
  }

  /** The case of an abstraction applied directly: one entry for that
      contraction, then the entries of reducing the substituted body. */
  lemma {:induction false} RedexDerivation(l: Expr, a: Expr, steps: seq<string>, fuel: nat)
    returns (p: seq<Expr>, t: seq<string>)
    requires l.Fun? && Reduce(App(l, a), steps, fuel).Done?
    ensures var sub := Substitute(l.v, a, l.body);
            t == [StepEntry(l.v, l.body, sub)] + Reduce(sub, [], fuel - 1).steps
    ensures Reduce(App(l, a), steps, fuel).steps == steps + t
    ensures Derivation(p, t) && p[0] == App(l, a) && p[|p| - 1] == Reduce(App(l, a), steps, fuel).expr
    decreases fuel, 0
  {
    var sub := Substitute(l.v, a, l.body);
    var entry := StepEntry(l.v, l.body, sub);
    assert Reduce(App(l, a), steps, fuel) == Reduce(sub, steps + [entry], fuel - 1);
    var ps, ts := ReduceDerivation(sub, steps + [entry], fuel - 1);
    assert Labelled(App(l, a), sub, entry);
    JoinStep([App(l, a)], [], sub, entry, ps, ts);
    p, t := [App(l, a)] + ps, [] + [entry] + ts;
    assert steps + [entry] + ts == steps + t;
    ReduceFromEmpty(sub, steps + [entry], fuel - 1);
    PrefixCancel(steps + [entry], ts, Reduce(sub, [], fuel - 1).steps);
  }

  /** The case of a left side that reduces to an abstraction: the left side's
      entries, one entry for contracting its normal form against the unreduced
      right side, then the entries of reducing the substituted body. */
  lemma {:induction false} HiddenRedexDerivation(l: Expr, a: Expr, steps: seq<string>, fuel: nat)
    returns (p: seq<Expr>, t: seq<string>)
    requires !l.Fun? && Reduce(App(l, a), steps, fuel).Done?
    requires Reduce(l, steps, fuel - 1).expr.Fun?
    ensures Reduce(l, [], fuel - 1).Done? && Reduce(l, [], fuel - 1).expr.Fun?
    ensures var f := Reduce(l, [], fuel - 1).expr;
            var sub := Substitute(f.v, a, f.body);
            t == Reduce(l, [], fuel - 1).steps + [StepEntry(f.v, f.body, sub)] + Reduce(sub, [], fuel - 1).steps
    ensures Reduce(App(l, a), steps, fuel).steps == steps + t
    ensures Derivation(p, t) && p[0] == App(l, a) && p[|p| - 1] == Reduce(App(l, a), steps, fuel).expr
    decreases fuel, 0
  {
    var rl := Reduce(l, steps, fuel - 1);
    var pl, tl := ReduceDerivation(l, steps, fuel - 1);
    var left := OnLeft(pl, a);
    DerivationOnLeft(pl, tl, a);
    var sub := Substitute(rl.expr.v, a, rl.expr.body);
    var entry := StepEntry(rl.expr.v, rl.expr.body, sub);
    assert Reduce(App(l, a), steps, fuel) == Reduce(sub, rl.steps + [entry], fuel - 1);
    var ps, ts := ReduceDerivation(sub, rl.steps + [entry], fuel - 1);
    assert Labelled(left[|left| - 1], sub, entry);
    JoinStep(left, tl, sub, entry, ps, ts);
    p, t := left + ps, tl + [entry] + ts;
    assert steps + tl + [entry] + ts == steps + t;
    ReduceFromEmpty(l, steps, fuel - 1);
    PrefixCancel(steps, tl, Reduce(l, [], fuel - 1).steps);
    ReduceFromEmpty(sub, rl.steps + [entry], fuel - 1);
    PrefixCancel(rl.steps + [entry], ts, Reduce(sub, [], fuel - 1).steps);
  }

  /** The case of a left side that does not reduce to an abstraction: the left
      side's entries, then the right side's, around the two normal forms. */
  lemma {:induction false} StuckDerivation(l: Expr, a: Expr, steps: seq<string>, fuel: nat)
    returns (p: seq<Expr>, t: seq<string>)
    requires !l.Fun? && Reduce(App(l, a), steps, fuel).Done?
    requires !Reduce(l, steps, fuel - 1).expr.Fun?
    ensures t == Reduce(l, [], fuel - 1).steps + Reduce(a, [], fuel - 1).steps
    ensures Reduce(l, [], fuel - 1).Done? && Reduce(a, [], fuel - 1).Done?
    ensures Reduce(App(l, a), steps, fuel).expr
         == App(Reduce(l, [], fuel - 1).expr, Reduce(a, [], fuel - 1).expr)
    ensures Reduce(App(l, a), steps, fuel).steps == steps + t
    ensures Derivation(p, t) && p[0] == App(l, a) && p[|p| - 1] == Reduce(App(l, a), steps, fuel).expr
    decreases fuel, 0
  {
    var rl := Reduce(l, steps, fuel - 1);
    var pl, tl := ReduceDerivation(l, steps, fuel - 1);
    var left := OnLeft(pl, a);
    DerivationOnLeft(pl, tl, a);
    var rr := Reduce(a, rl.steps, fuel - 1);
    assert Reduce(App(l, a), steps, fuel) == Done(App(rl.expr, rr.expr), rr.steps);
    var pr, tr := ReduceDerivation(a, rl.steps, fuel - 1);
    var right := OnRight(rl.expr, pr);
    DerivationOnRight(rl.expr, pr, tr);
    DerivationJoin(left, tl, right, tr);
    p, t := left + right[1..], tl + tr;
    assert steps + tl + tr == steps + t;
    ReduceFromEmpty(l, steps, fuel - 1);
    PrefixCancel(steps, tl, Reduce(l, [], fuel - 1).steps);
    ReduceFromEmpty(a, rl.steps, fuel - 1);
    PrefixCancel(rl.steps, tr, Reduce(a, [], fuel - 1).steps);
  }

  /** Every entry of the trace has balanced parentheses. */
  ghost predicate AllBalanced(steps: seq<string>)
  {
    forall i :: 0 <= i < |steps| ==> Balanced(steps[i])
  }

  /** An entry built from terms with grammar names has balanced parentheses. */
  lemma StepEntryBalanced(x: string, body: Expr, substituted: Expr)
    requires IsName(x) && WellFormed(body) && WellFormed(substituted)
    ensures Balanced(StepEntry(x, body, substituted))
  {
    ShowBalanced(Fun(x, body));
    ShowBalanced(substituted);
    var arrow := "\t&rarr;\t";
    assert NoParens(arrow);
    NoParensNests(arrow, 0);
    BalancedAppend(Show(Fun(x, body)), arrow);
    BalancedAppend(Show(Fun(x, body)) + arrow, Show(substituted));
    assert StepEntry(x, body, substituted) == Show(Fun(x, body)) + arrow + Show(substituted);
  }

  /** Reducing a well-formed term records only entries with balanced parentheses,
      and a completed result is again well formed. */
  lemma {:induction false} ReduceBalanced(e: Expr, steps: seq<string>, fuel: nat)
    requires WellFormed(e) && AllBalanced(steps)
    ensures AllBalanced(Reduce(e, steps, fuel).steps)
    ensures Reduce(e, steps, fuel).Done? ==> WellFormed(Reduce(e, steps, fuel).expr)
    decreases fuel
  {
    if fuel > 0 {
      match e
      case Var(_) =>
      case Fun(_, b) => ReduceBalanced(b, steps, fuel - 1);
      case App(l, a) =>
        if l.Fun? {
          var sub := Substitute(l.v, a, l.body);
          SubstituteWellFormed(l.v, a, l.body);
          StepEntryBalanced(l.v, l.body, sub);
          ReduceBalanced(sub, steps + [StepEntry(l.v, l.body, sub)], fuel - 1);
        } else {
          ReduceBalanced(l, steps, fuel - 1);
          var rl := Reduce(l, steps, fuel - 1);
          if rl.Done? {
            if rl.expr.Fun? {
              var sub := Substitute(rl.expr.v, a, rl.expr.body);
              SubstituteWellFormed(rl.expr.v, a, rl.expr.body);
              StepEntryBalanced(rl.expr.v, rl.expr.body, sub);
              ReduceBalanced(sub, rl.steps + [StepEntry(rl.expr.v, rl.expr.body, sub)], fuel - 1);
            } else {
              ReduceBalanced(a, rl.steps, fuel - 1);
            }
          }
        }
    }
  }
}
