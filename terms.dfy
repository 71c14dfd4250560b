/** Lambda terms, in the shape the parser of the surface grammar builds them,
    and the fully parenthesising printer that renders them back to text. */
module Terms {

  /** A term: a variable, an abstraction `λv.body`, or an application `(left right)`.
      Variables are identified by their name only. */
  datatype Expr =
    | Var(name: string)
    | Fun(v: string, body: Expr)
    | App(left: Expr, right: Expr)

  /** The printer. A binder is written with the HTML entity for λ, and every
      application is wrapped in parentheses, with one space between its two sides. */
  function Show(e: Expr): string
  {
    match e
    case Var(n) => n
    case Fun(x, b) => "&#955;" + x + "." + Show(b)
    case App(l, r) => "(" + Show(l) + " " + Show(r) + ")"
  }

  /** A character of a variable name, as the grammar's class `[a-zA-z0-9']` is written:
      the range `A-z` also admits the six characters between `Z` and `a`. */
  predicate IsNameChar(c: char)
  {
    ('a' <= c <= 'z') || ('A' <= c <= 'z') || ('0' <= c <= '9') || c == '\''
  }

  predicate IsName(n: string)
  {
    |n| > 0 && forall i :: 0 <= i < |n| ==> IsNameChar(n[i])
  }

  /** Every name in the term is one the grammar accepts. */
  predicate WellFormed(e: Expr)
  {
    match e
    case Var(n) => IsName(n)
    case Fun(x, b) => IsName(x) && WellFormed(b)
    case App(l, r) => WellFormed(l) && WellFormed(r)
  }

  /** Reading `s` from left to right, starting at nesting depth `d`, no closing
      parenthesis goes below depth zero and the depth at the end is `d'`. */
  ghost predicate Nests(s: string, d: nat, d': nat)
    decreases |s|
  {
    if s == [] then d == d'
    else if s[0] == '(' then Nests(s[1..], d + 1, d')
    else if s[0] == ')' then d > 0 && Nests(s[1..], d - 1, d')
    else Nests(s[1..], d, d')
  }

  /** Parentheses in `s` are balanced. */
  ghost predicate Balanced(s: string)
  {
    Nests(s, 0, 0)
  }

  predicate NoParens(s: string)
  {
    forall i :: 0 <= i < |s| ==> s[i] != '(' && s[i] != ')'
  }

  lemma {:induction false} NestsAppend(a: string, b: string, d: nat, m: nat, d': nat)
    requires Nests(a, d, m) && Nests(b, m, d')
    ensures Nests(a + b, d, d')
    decreases |a|
  {
    if a == [] {
      assert a + b == b;
    } else {
      assert (a + b)[0] == a[0] && (a + b)[1..] == a[1..] + b;
      if a[0] == '(' {
        NestsAppend(a[1..], b, d + 1, m, d');
      } else if a[0] == ')' {
        NestsAppend(a[1..], b, d - 1, m, d');
      } else {
        NestsAppend(a[1..], b, d, m, d');
      }
    }
  }

  lemma {:induction false} NoParensNests(s: string, d: nat)
    requires NoParens(s)
    ensures Nests(s, d, d)
    decreases |s|
  {
    if s != [] {
      assert NoParens(s[1..]) by {
        forall i | 0 <= i < |s[1..]| ensures s[1..][i] != '(' && s[1..][i] != ')' {
          assert s[1..][i] == s[i + 1];
        }
      }
      NoParensNests(s[1..], d);
    }
  }

  lemma NameHasNoParens(n: string)
    requires IsName(n)
    ensures NoParens(n)
  {
  }

  /** Starting from any depth, the text of a well-formed term returns to that depth
      and never closes a parenthesis it did not open. */
  lemma {:induction false} ShowNests(e: Expr, d: nat)
    requires WellFormed(e)
    ensures Nests(Show(e), d, d)
  {
    match e
    case Var(n) =>
      NameHasNoParens(n);
      NoParensNests(n, d);
    case Fun(x, b) =>
      NameHasNoParens(x);
      var head := "&#955;" + x + ".";
      assert NoParens(head) by {
        forall i | 0 <= i < |head| ensures head[i] != '(' && head[i] != ')' {
          if i >= 6 && i < 6 + |x| {
            assert head[i] == x[i - 6];
          }
        }
      }
      NoParensNests(head, d);
      ShowNests(b, d);
      NestsAppend(head, Show(b), d, d, d);
    case App(l, r) =>
      assert Nests("(", d, d + 1) by { assert "("[1..] == []; }
      assert Nests(")", d + 1, d) by { assert ")"[1..] == []; }
      NoParensNests(" ", d + 1);
      ShowNests(l, d + 1);
      ShowNests(r, d + 1);
      NestsAppend("(", Show(l), d, d + 1, d + 1);
      NestsAppend("(" + Show(l), " ", d, d + 1, d + 1);
      NestsAppend("(" + Show(l) + " ", Show(r), d, d + 1, d + 1);
      NestsAppend("(" + Show(l) + " " + Show(r), ")", d, d + 1, d);
  }

  /** The printed form of a well-formed term has balanced parentheses. */
  lemma ShowBalanced(e: Expr)
    requires WellFormed(e)
    ensures Balanced(Show(e))
  {
    ShowNests(e, 0);
  }

  /** Concatenating two balanced texts gives a balanced text. */
  lemma BalancedAppend(a: string, b: string)
    requires Balanced(a) && Balanced(b)
    ensures Balanced(a + b)
  {
    NestsAppend(a, b, 0, 0, 0);
  }
}
