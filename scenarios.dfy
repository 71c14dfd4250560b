/** Concrete reductions: the identity and the constant function applied, a
    substitution the capture guard blocks, and a term without a normal form. */
module Scenarios {
  import opened Terms
  import opened Substitution
  import opened Reduction

  /** `(λx.x y)` reduces to `y` in one contraction. */
  lemma IdentityApplied()
    ensures Reduce(App(Fun("x", Var("x")), Var("y")), [], 2)
         == Done(Var("y"), ["&#955;x.x\t&rarr;\ty"])
  {
    assert StepEntry("x", Var("x"), Var("y")) == "&#955;x.x\t&rarr;\ty";
  }

  /** `(λx.λy.x a)` reduces to `λy.a` in one contraction. */
  lemma ConstantApplied()
    ensures Reduce(App(Fun("x", Fun("y", Var("x"))), Var("a")), [], 3)
         == Done(Fun("y", Var("a")), ["&#955;x.&#955;y.x\t&rarr;\t&#955;y.a"])
  {
    assert StepEntry("x", Fun("y", Var("x")), Fun("y", Var("a")))
        == "&#955;x.&#955;y.x\t&rarr;\t&#955;y.a";
  }

  /** `(λx.λy.x y)`: the binder `y` is free in the argument, so the guard leaves
      `λy.x` as it is; the contraction is recorded and `x` ends up free. */
  lemma CaptureBlockedApplied()
    ensures Reduce(App(Fun("x", Fun("y", Var("x"))), Var("y")), [], 3)
         == Done(Fun("y", Var("x")), ["&#955;x.&#955;y.x\t&rarr;\t&#955;y.x"])
  {
    assert StepEntry("x", Fun("y", Var("x")), Fun("y", Var("x")))
        == "&#955;x.&#955;y.x\t&rarr;\t&#955;y.x";
  }

  /** `λx.(x x)` */
  function SelfApply(): Expr
  {
    Fun("x", App(Var("x"), Var("x")))
  }

  /** `(λx.(x x) λx.(x x))` contracts to itself, so however deep the stack, the
      reduction runs out of it, after recording one entry per level. */
  lemma {:induction false} SelfApplicationDiverges(steps: seq<string>, fuel: nat)
    ensures Reduce(App(SelfApply(), SelfApply()), steps, fuel).OutOfFuel?
    ensures |Reduce(App(SelfApply(), SelfApply()), steps, fuel).steps| == |steps| + fuel
    decreases fuel
  {
    if fuel > 0 {
      var omega := App(SelfApply(), SelfApply());
      assert Substitute("x", SelfApply(), App(Var("x"), Var("x"))) == omega;
      SelfApplicationDiverges(steps + [StepEntry("x", App(Var("x"), Var("x")), omega)], fuel - 1);
    }
  }

  /** `λw.(w Ω)`, where `Ω` is the self-application above. */
  function IgnoreLater(): Expr
  {
    Fun("w", App(Var("w"), App(SelfApply(), SelfApply())))
  }

  /** `λa.λb.b` */
  function Second(): Expr
  {
    Fun("a", Fun("b", Var("b")))
  }

  /** `((λz.λw.(w Ω) q) λa.λb.b)` */
  function FunctionSideDiverges(): Expr
  {
    App(App(Fun("z", IgnoreLater()), Var("q")), Second())
  }

  /** The engine normalises the function side of an application, binders included,
      before contracting the outer redex; here that reaches `Ω` under `λw` and never
      finishes, whatever the depth. */
  lemma FunctionSideFirstDiverges(fuel: nat)
    ensures Reduce(FunctionSideDiverges(), [], fuel).OutOfFuel?
  {
    var omega := App(SelfApply(), SelfApply());
    var entry := StepEntry("z", IgnoreLater(), IgnoreLater());
    assert Substitute("z", Var("q"), IgnoreLater()) == IgnoreLater();
    assert [] + [entry] == [entry];
    if fuel >= 2 {
      var g := fuel - 2;
      if g >= 1 {
        assert Reduce(App(Var("w"), omega), [entry], g - 1).OutOfFuel? by {
          if g >= 3 {
            SelfApplicationDiverges([entry], g - 2);
            assert Reduce(Var("w"), [entry], g - 2) == Done(Var("w"), [entry]);
          }
        }
      }
      assert Reduce(IgnoreLater(), [entry], g).OutOfFuel?;
      assert Reduce(App(Fun("z", IgnoreLater()), Var("q")), [], fuel - 1).OutOfFuel?;
    }
  }

  /** Yet three contractions, outermost first, take the same term to `λb.b`,
      a normal form. */
  lemma OutermostFirstTerminates()
    ensures IsNormal(Fun("b", Var("b")))
    ensures Derivation(
              [FunctionSideDiverges(),
               App(IgnoreLater(), Second()),
               App(Second(), App(SelfApply(), SelfApply())),
               Fun("b", Var("b"))],
              [StepEntry("z", IgnoreLater(), IgnoreLater()),
               StepEntry("w", App(Var("w"), App(SelfApply(), SelfApply())), App(Second(), App(SelfApply(), SelfApply()))),
               StepEntry("a", Fun("b", Var("b")), Fun("b", Var("b")))])
  {
    var omega := App(SelfApply(), SelfApply());
    assert Substitute("z", Var("q"), IgnoreLater()) == IgnoreLater();
    assert Substitute("w", Second(), omega) == omega;
    assert Substitute("w", Second(), App(Var("w"), omega)) == App(Second(), omega);
    assert Substitute("a", omega, Fun("b", Var("b"))) == Fun("b", Var("b"));
    assert Labelled(App(Fun("z", IgnoreLater()), Var("q")), IgnoreLater(), StepEntry("z", IgnoreLater(), IgnoreLater()));
  }
}
