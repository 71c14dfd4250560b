# Untyped lambda-calculus normaliser

A model of the rewriting engine of a small lambda-calculus reducer. Terms are
variables, abstractions `λx.body` and applications `(left right)`. The engine
has four parts:

- a test for whether a name occurs free in a term;
- substitution, with a guard against capture;
- a normaliser that records one trace entry per contraction in a trace shared
  by all its recursive calls;
- a printer that parenthesises every application.

One module per part of `script.js`, and one of worked examples:

- `Terms` (`terms.dfy`): the term datatype, the printer `Show`, and balanced
  parentheses in printed terms.
- `FreeVariables` (`freevariables.dfy`): `IsFreeIn`, tied to a set-valued
  reference definition `FreeVars`.
- `Substitution` (`substitution.dfy`): `Substitute` and its laws.
- `Reduction` (`reduction.dfy`): the normaliser as a pure function `Reduce` of
  the term, the trace so far and a depth bound. Also the one-step relation
  `Labelled` and the theorem that the trace describes a chain of contractions.
- `Reducer` (`reducer.dfy`): the normaliser as the engine runs it. The class
  `StepLog` holds the trace in a field and pushes onto it in place. Its method
  is proved equal to `Reduction.Reduce`.
- `Scenarios` (`scenarios.dfy`): concrete reductions.

Textbook capture-avoiding substitution renames a binder that would capture a
free name of the value. `substitute` does not (`script.js:28-29`). When the
binder is free in the value, it returns the abstraction unchanged, so the
substitution is silently dropped. The model follows the code.
`BlockedSubstitutionKeepsTarget` and `CaptureBlockedApplied` show the consequence: `((λx.λy.x) y)` reduces to
`λy.x`, with `x` left free. `SubstituteExact` shows which substitutions are
unaffected. Likewise the printer and the trace use the HTML entity `&#955;` for
λ, as the code does.

The normaliser is not leftmost-outermost. When the left side of an application
is not an abstraction, it reduces that side to full normal form, under its
binders too, before contracting the outer redex (`script.js:51-55`). So it can
diverge on a term that outermost-first reduction would normalise.
`FunctionSideFirstDiverges` and `OutermostFirstTerminates` show such a term.

The engine has no step limit. A term without a normal form recurses until the
JavaScript call stack overflows, and the resulting exception is caught by the
page glue. The model bounds only the nesting of `reduce` calls: `fuel` is the
depth of that nesting still available. The stack used by `substitute`,
`astToString` and `isVariableFreeIn` is not counted. Each call consumes one
level, and the calls it makes get one level less. When fuel runs out the
outcome is `OutOfFuel`, carrying the entries pushed so far, since the shared
array keeps them.

## Model

| member | source | states |
|---|---|---|
| `FreeVariables.IsFreeIn` | script.js:12-21 | true exactly when the name is in the reference set of free variables `FreeVars` (a binder removes its own name; an application unites both sides) |
| `FreeVariables.BinderShadows` | script.js:16-17 | an abstraction over `x` hides `x` whatever its body holds; an abstraction over another name passes the question to its body |
| `Substitution.Substitute` | script.js:23-36 | the free names of the result come from the term, plus those of the value only if the target was free; if the target is not free the term comes back unchanged |
| `Substitution.SubstituteShadowed` | script.js:28-29 | substituting for `x` under a binder of `x` returns the abstraction unchanged |
| `Substitution.SubstituteBlocked` | script.js:28-29 | when the binder `y` differs from `x` but is free in the value, the abstraction is returned unchanged: capture is blocked, nothing is renamed |
| `Substitution.BlockedSubstitutionKeepsTarget` | script.js:28-29 | substituting `y` for `x` in `λy.x` leaves `λy.x`, and `x` is still free in the result |
| `Substitution.SubstituteExact` | script.js:23-36 | when the guard never fires above a free `x`, the free names of the result are exactly those of the term without `x`, plus those of the value if `x` was free |
| `Substitution.SubstituteSelf` | script.js:23-36 | substituting the variable `x` for `x` gives back the same term |
| `Substitution.SubstituteWellFormed` | script.js:23-36 | substituting a term with grammar names into a term with grammar names gives a term with grammar names |
| `Terms.Show` | script.js:64-72 | the printer: a variable as its name, an abstraction as `&#955;`, name, `.`, body, an application as `(`, left, space, right, `)`; its properties are stated by `Terms.ShowNests` and `Terms.ShowBalanced` |
| `Terms.ShowNests` | script.js:64-72 | the printed text of a term with grammar names never closes a parenthesis it did not open and ends at the depth where it started |
| `Terms.ShowBalanced` | script.js:64-72 | the printed text of a term with grammar names has balanced parentheses |
| `Reduction.Reduce` | script.js:38-61 | the trace it returns extends the one it was given; a completed result contains no application with an abstraction on its left |
| `Reduction.ReduceVar` | script.js:40-41 | a variable is returned as it is, with the trace untouched |
| `Reduction.ReduceFixesNormal` | script.js:38-61 | a term with no redex, given stack enough for its height, comes back unchanged and adds no trace entry |
| `Reduction.ReduceIdempotent` | script.js:38-61 | reducing a completed result again returns it unchanged with no new entry |
| `Reduction.ReduceMoreFuel` | script.js:38-61 | a completed reduction gives the same term and trace with any deeper stack |
| `Reduction.ReduceAnyTrace` | script.js:38-61 | the entries a call pushes do not depend on what the shared trace held before, and the earlier entries stay in front, unchanged, on either outcome |
| `Reduction.ReduceFromEmpty` | script.js:38 | a call given a trace behaves as a call given an empty trace, with the given entries in front |
| `Reduction.ReduceDerivation` | script.js:38-61 | a completed reduction appends entries `t`, and there is a chain of terms from the input to the result whose i-th link is one contraction, anywhere in the term, that the i-th entry of `t` describes |
| `Reduction.RedexDerivation` | script.js:46-49 | for an abstraction applied directly, the entries appended are one entry for that contraction followed by those of reducing the substituted body from an empty trace; and the chain property above |
| `Reduction.HiddenRedexDerivation` | script.js:50-55 | when the left side reduces to an abstraction, the entries appended are the left side's, then one entry for contracting that abstraction against the unreduced right side, then those of reducing the substituted body; and the chain property above |
| `Reduction.StuckDerivation` | script.js:56-58 | when the left side does not become an abstraction, the result is the application of the two sides' normal forms and the entries appended are the left side's followed by the right side's; and the chain property above |
| `Reduction.StepEntry` | script.js:48 | the pushed entry: `&#955;`, binder, `.`, printed body, tab, `&rarr;`, tab, printed substituted term; its properties are stated by `Reduction.StepEntryBalanced` and `Reduction.ReduceDerivation` |
| `Reduction.StepEntryBalanced` | script.js:48 | a trace entry built from well-formed terms has balanced parentheses |
| `Reduction.ReduceBalanced` | script.js:38-61 | reducing a term with grammar names pushes only entries with balanced parentheses, and a completed result again has only grammar names |
| `Reducer.StepLog.constructor` | script.js:38 | a reduction started without a trace starts from an empty one |
| `Reducer.StepLog.Reduce` | script.js:38-61 | pushing in place on the shared field returns exactly the outcome of `Reduction.Reduce` from the trace found, and leaves the field equal to the trace returned |
| `Scenarios.IdentityApplied` | script.js:46-49 | `(λx.x y)` reduces to `y` with the single entry `&#955;x.x`, tab, `&rarr;`, tab, `y` |
| `Scenarios.ConstantApplied` | script.js:46-49 | `(λx.λy.x a)` reduces to `λy.a` in one contraction |
| `Scenarios.CaptureBlockedApplied` | script.js:28-29 | `(λx.λy.x y)` reduces to `λy.x` in one contraction: the blocked substitution is still recorded |
| `Scenarios.SelfApplicationDiverges` | script.js:46-49 | `(λx.(x x) λx.(x x))` runs out of any stack depth, recording one entry per level |
| `Scenarios.FunctionSideFirstDiverges` | script.js:50-55 | `((λz.λw.(w Ω) q) λa.λb.b)` runs out of any stack depth, because the left side is normalised under `λw` before the outer contraction |
| `Scenarios.OutermostFirstTerminates` | script.js:46-49 | three contractions, outermost first, take that same term to the normal form `λb.b` |

## Left out

- `processLambda` (script.js:75-93): reads and writes the page through the DOM, expands the macro words `AND`, `NOT`, `TRUE`, `FALSE`, `COND` and `_` with regular expressions, and shows errors. This is presentation glue, not part of the engine.
- The parser generated from the grammar at script.js:1-10 is an external library and is not part of this model. The datatype `Expr` is the shape it builds. `WellFormed` states its name rule `[a-zA-z0-9']+` as written, where the range `A-z` also admits `[`, `\`, `]`, `^`, `_` and the backquote.
- HTML rendering of the result and the trace (spaces turned into markup, entries joined by `<br>`) is not modelled.
- Exceptions are not modelled. The call-stack overflow that ends a divergent reduction is represented by `OutOfFuel`.
- Alpha-renaming with a fresh-name counter is not modelled because the code does not implement it.
- Object identity is not modelled. The engine returns the same value object or subtree, and the same array object, that it was given. The model works on immutable values, where that identity is invisible.
- Reduction.ReduceFixesNormal, Reduction.ReduceIdempotent: the fixed-point property is stated for stack depth at least the term's height. With less depth, the engine runs out of stack even on a normal form.
