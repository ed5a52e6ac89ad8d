/**
 * Whole programs run through the pass, each stated as the outcome of
 * visiting its body from the initial state, where nothing is captured.
 */
module Scenarios {
  import opened Wrappers
  import opened Ast
  import opened PassSpec

  const At := Span(0, 0)

  function Name(n: string): Expression {
    Identifier(At, n)
  }

  /** A literal as the parser builds it: with its raw text and its base. */
  function Literal(v: Number, raw: string, base: NumberBase): Expression {
    NumericLiteral(At, v, Some(raw), base)
  }

  const Pi: Expression := Literal(3.14, "3.14", Float)
  const One: Expression := Literal(1.0, "1", Decimal)
  const Two: Expression := Literal(2.0, "2", Decimal)

  function Add(l: Expression, r: Expression): Expression {
    BinaryExpr(BinaryExpression(At, Addition, l, r))
  }

  function Mul(l: Expression, r: Expression): Expression {
    BinaryExpr(BinaryExpression(At, Multiplication, l, r))
  }

  /** A parenthesised expression: a node the pass does not descend into. */
  function Paren(e: Expression): Expression {
    Other(At, [e])
  }

  /** `const <n> = <init>;` */
  function Const(n: string, init: Expression): Statement {
    VariableDeclaration(At, [VariableDeclarator(At, BindingIdentifier(At, n), Some(init))])
  }

  function Run(e: Expression): Statement {
    ExpressionStatement(At, e)
  }

  /** A one-declarator statement captures exactly when it binds the target to a numeric literal. */
  lemma ConstStep(n: string, init: Expression, pi: Option<Number>)
    ensures Step(Const(n, init), pi)
         == Success((Const(n, init), if n == TargetName && init.NumericLiteral? then Some(init.value) else pi))
  {
    var ds := Const(n, init).declarations;
    assert ds[..0] == [];
    assert AllNamed(ds);
    assert Captures(ds[0]) <==> n == TargetName && init.NumericLiteral?;
    assert LastCapture(ds, pi) == if Captures(ds[0]) then Some(init.value) else LastCapture(ds[..0], pi);
  }

  lemma NotTarget(n: string)
    requires |n| > 0 && n[0] != 'P'
    ensures n != TargetName
  {
    assert TargetName[0] == 'P';
  }

  /** `const PI = 3.14; PI + PI;` reads both operands as the literal. */
  lemma BothOperandsReplaced()
    ensures Traverse([Const("PI", Pi), Run(Add(Name("PI"), Name("PI")))], None)
         == Success(([Const("PI", Pi), Run(Add(Replacement(At, 3.14), Replacement(At, 3.14)))], Some(3.14)))
  {
    var a, b := Const("PI", Pi), Run(Add(Name("PI"), Name("PI")));
    assert [a, b] == [a] + [b] && [b] == [b] + [];
    ConstStep("PI", Pi, None);
    TraverseFront(a, [b], None);
    TraverseFront(b, [], Some(3.14));
    var b' := Run(Add(Replacement(At, 3.14), Replacement(At, 3.14)));
    assert Step(b, Some(3.14)) == Success((b', Some(3.14)));
    assert [a] + ([b'] + []) == [a, b'];
  }

  /** A read nested in binary operands is reached: `const PI = 2; 1 + x * PI;`. */
  lemma NestedOperandReplaced()
    ensures Traverse([Const("PI", Two), Run(Add(One, Mul(Name("x"), Name("PI"))))], None)
         == Success(([Const("PI", Two), Run(Add(One, Mul(Name("x"), Replacement(At, 2.0))))], Some(2.0)))
  {
    var a, b := Const("PI", Two), Run(Add(One, Mul(Name("x"), Name("PI"))));
    assert [a, b] == [a] + [b] && [b] == [b] + [];
    NotTarget("x");
    ConstStep("PI", Two, None);
    TraverseFront(a, [b], None);
    TraverseFront(b, [], Some(2.0));
    var b' := Run(Add(One, Mul(Name("x"), Replacement(At, 2.0))));
    assert Step(b, Some(2.0)) == Success((b', Some(2.0)));
    assert [a] + ([b'] + []) == [a, b'];
  }

  /** Parentheses stop the descent: `const PI = 2; 1 + (x + PI);` is unchanged. */
  lemma ParenthesisedOperandUntouched()
    ensures Traverse([Const("PI", Two), Run(Add(One, Paren(Add(Name("x"), Name("PI")))))], None)
         == Success(([Const("PI", Two), Run(Add(One, Paren(Add(Name("x"), Name("PI")))))], Some(2.0)))
  {
    var a, b := Const("PI", Two), Run(Add(One, Paren(Add(Name("x"), Name("PI")))));
    assert [a, b] == [a] + [b] && [b] == [b] + [];
    ConstStep("PI", Two, None);
    TraverseFront(a, [b], None);
    TraverseFront(b, [], Some(2.0));
    assert Step(b, Some(2.0)) == Success((b, Some(2.0)));
    assert [a] + ([b] + []) == [a, b];
  }

  /** A redeclaration takes over: `const PI = 1; const PI = 2; PI;` reads 2. */
  lemma LaterDeclarationWins()
    ensures Traverse([Const("PI", One), Const("PI", Two), Run(Name("PI"))], None)
         == Success(([Const("PI", One), Const("PI", Two), Run(Replacement(At, 2.0))], Some(2.0)))
  {
    var a, b, c := Const("PI", One), Const("PI", Two), Run(Name("PI"));
    assert [a, b, c] == [a] + [b, c] && [b, c] == [b] + [c] && [c] == [c] + [];
    ConstStep("PI", One, None);
    ConstStep("PI", Two, Some(1.0));
    TraverseFront(a, [b, c], None);
    TraverseFront(b, [c], Some(1.0));
    TraverseFront(c, [], Some(2.0));
    var c' := Run(Replacement(At, 2.0));
    assert Step(c, Some(2.0)) == Success((c', Some(2.0)));
    assert [a] + ([b] + ([c'] + [])) == [a, b, c'];
  }

  /** `PI + 1;` with no declaration before it: the unwrap of nothing. */
  lemma ReadBeforeAnyDeclarationFails()
    ensures Traverse([Run(Add(Name("PI"), One))], None) == Failure(UnboundConstant)
  {
    var a := Run(Add(Name("PI"), One));
    assert [a] == [a] + [];
    TraverseFront(a, [], None);
  }

  /** The declaration comes too late: `PI + 1; const PI = 3.14;` fails at the read. */
  lemma ReadBeforeItsDeclarationFails()
    ensures Traverse([Run(Add(Name("PI"), One)), Const("PI", Pi)], None) == Failure(UnboundConstant)
  {
    var a, b := Run(Add(Name("PI"), One)), Const("PI", Pi);
    assert [a, b] == [a] + [b];
    TraverseFront(a, [b], None);
  }

  /** Only a numeric initialiser is captured: `const PI = "x"; PI + 1;` fails. */
  lemma NonNumericInitialiserIgnored()
    ensures Traverse([Const("PI", Other(At, [])), Run(Add(Name("PI"), One))], None) == Failure(UnboundConstant)
  {
    var a, b := Const("PI", Other(At, [])), Run(Add(Name("PI"), One));
    assert [a, b] == [a] + [b] && [b] == [b] + [];
    ConstStep("PI", Other(At, []), None);
    TraverseFront(a, [b], None);
    TraverseFront(b, [], None);
  }

  /** `f(PI + PI)`: a call, which the pass does not descend into. */
  const CallWithReads: Expression := Other(At, [Name("f"), Add(Name("PI"), Name("PI"))])

  /** Reads inside a call are not visited: `const PI = 3.14; f(PI + PI);` is unchanged. */
  lemma CallArgumentsUntouched()
    ensures Traverse([Const("PI", Pi), Run(CallWithReads)], None)
         == Success(([Const("PI", Pi), Run(CallWithReads)], Some(3.14)))
  {
    var a, b := Const("PI", Pi), Run(CallWithReads);
    assert [a, b] == [a] + [b] && [b] == [b] + [];
    ConstStep("PI", Pi, None);
    TraverseFront(a, [b], None);
    TraverseFront(b, [], Some(3.14));
    assert [a] + ([b] + []) == [a, b];
  }

  /** A destructuring declarator has no name to read: `const {a} = o;` fails. */
  lemma DestructuringFails()
    ensures Traverse([VariableDeclaration(At, [VariableDeclarator(At, ObjectPattern(At), Some(Name("o")))])], None)
         == Failure(UnnamedBinding)
  {
    var a := VariableDeclaration(At, [VariableDeclarator(At, ObjectPattern(At), Some(Name("o")))]);
    assert a.declarations[0].id.GetIdentifierName().None?;
    assert [a][..0] == [];
  }

  /** Other names are left alone, and a program without reads needs no capture: `x + 1;`. */
  lemma OtherNamesUntouched()
    ensures Traverse([Run(Add(Name("x"), One))], None) == Success(([Run(Add(Name("x"), One))], None))
  {
    var a := Run(Add(Name("x"), One));
    assert [a] == [a] + [];
    NotTarget("x");
    TraverseFront(a, [], None);
  }
}
