/**
 * The PI replacement pass: a visitor that overrides three entry points of
 * the mutable AST walk. It captures the numeric value of a declarator named
 * `PI` and replaces `PI` reads with literals of that value, reaching only
 * bare expressions and, through binary expressions, their operands.
 *
 * An exclusive reference `&mut T` that a visit rewrites is modelled as a
 * value taken in and its replacement handed back. A panic becomes a
 * `Failure` result.
 */
module Visitor {
  import opened Wrappers
  import opened Ast
  import opened PassSpec

  /** A binary expression with its operands set to the outcomes of replacing them. */
  function Reassemble(it: BinaryExpression, left: Result<Expression, Error>, right: Result<Expression, Error>): (r: Result<BinaryExpression, Error>)
    ensures r.Success? <==> left.Success? && right.Success?
    ensures r.Failure? ==> r.error == (if left.Failure? then left.error else right.error)
    ensures r.Success? ==> && r.value.span == it.span && r.value.operator == it.operator
                           && r.value.left == left.value && r.value.right == right.value
  {
    if left.Failure? then Failure(left.error)
    else if right.Failure? then Failure(right.error)
    else Success(it.(left := left.value, right := right.value))
  }

  class PiReplacer {
    /** The value of the last `PI` declarator with a numeric initialiser visited so far. */
    var piValue: Option<Number>

    constructor ()
      ensures piValue == None
    {
      piValue := None;
    }

    /**
     * Captures the initialiser's value when the declarator binds `PI` to a
     * numeric literal; never descends into the initialiser.
     */
    method VisitVariableDeclarator(it: VariableDeclarator) returns (o: Outcome<Error>)
      modifies this
      ensures o == if it.id.GetIdentifierName().None? then Fail(UnnamedBinding) else Pass
      ensures Captures(it) ==> piValue == Some(it.init.value.value)
      ensures !Captures(it) ==> piValue == old(piValue)
    {
      var identifierName := it.id.GetIdentifierName();
      if identifierName.None? {
        return Fail(UnnamedBinding);
      }
      if identifierName.value == TargetName {
        if it.init.Some? && it.init.value.NumericLiteral? {
          piValue := Some(it.init.value.value);
        }
      }
      o := Pass;
    }

    /**
     * Visits both operands, then repeats the replacement on each of them;
     * the repetition never changes anything (SecondReplacementIsRedundant).
     */
    method VisitBinaryExpression(it: BinaryExpression) returns (r: Result<BinaryExpression, Error>)
      ensures r.Failure? <==> Rewrite(BinaryExpr(it), piValue).Failure?
      ensures r.Failure? ==> r.error == UnboundConstant
      ensures r.Success? ==> Rewrite(BinaryExpr(it), piValue) == Success(BinaryExpr(r.value))
      decreases it
    {
      var left :- VisitExpression(it.left);
      var right :- VisitExpression(it.right);
      SecondReplacementIsRedundant(it.left, piValue);
      SecondReplacementIsRedundant(it.right, piValue);
      r := Reassemble(it, ReplaceIfTarget(left, piValue), ReplaceIfTarget(right, piValue));
    }

    /**
     * Replaces a `PI` read, descends into a binary expression, and leaves
     * every other expression as it is, without visiting its children.
     */
    method VisitExpression(expr: Expression) returns (r: Result<Expression, Error>)
      ensures r == Rewrite(expr, piValue)
      decreases expr
    {
      match expr {
        case Identifier(_, name) =>
          if name == TargetName {
            r := ReplaceIfTarget(expr, piValue);
          } else {
            r := Success(expr);
          }
        case BinaryExpr(b) =>
          var b' :- VisitBinaryExpression(b);
          r := Success(BinaryExpr(b'));
        case _ =>
          r := Success(expr);
      }
    }

    /**
     * The inherited walk of a statement: a declaration visits its
     * declarators in order, an expression statement its expression; any
     * other statement is left alone.
     */
    method VisitStatement(s: Statement) returns (r: Result<Statement, Error>)
      modifies this
      ensures Step(s, old(piValue)).Success? ==> r.Success? && Step(s, old(piValue)).value == (r.value, piValue)
      ensures Step(s, old(piValue)).Failure? ==> r == Failure(Step(s, old(piValue)).error)
    {
      match s {
        case VariableDeclaration(_, ds) =>
          var j := 0;
          while j < |ds|
            invariant 0 <= j <= |ds|
            invariant AllNamed(ds[..j])
            invariant piValue == LastCapture(ds[..j], old(piValue))
          {
            var o := VisitVariableDeclarator(ds[j]);
            if o.Fail? {
              return Failure(o.error);
            }
            assert ds[..j + 1][..j] == ds[..j];
            j := j + 1;
          }
          assert ds[..j] == ds;
          r := Success(s);
        case ExpressionStatement(span, e) =>
          var e' :- VisitExpression(e);
          r := Success(ExpressionStatement(span, e'));
        case OtherStatement(_) =>
          r := Success(s);
      }
    }

    /** The inherited walk of a program: its statements, in order. */
    method VisitProgram(program: Program) returns (r: Result<Program, Error>)
      modifies this
      ensures Traverse(program.body, old(piValue)).Success? ==>
                && r == Success(Program(program.span, Traverse(program.body, old(piValue)).value.0))
                && piValue == Traverse(program.body, old(piValue)).value.1
      ensures Traverse(program.body, old(piValue)).Failure? ==> r == Failure(Traverse(program.body, old(piValue)).error)
    {
      var body := program.body;
      var out: seq<Statement> := [];
      var i := 0;
      while i < |body|
        invariant 0 <= i <= |body|
        invariant Traverse(body[..i], old(piValue)) == Success((out, piValue))
      {
        var s := VisitStatement(body[i]);
        assert body[..i + 1][..i] == body[..i];
        if s.Failure? {
          TraverseFailureSticky(body, i + 1, old(piValue));
          return Failure(s.error);
        }
        out := out + [s.value];
        i := i + 1;
      }
      assert body[..i] == body;
      r := Success(Program(program.span, out));
    }
  }

  /**
   * The transformation the example program applies to a parsed program: a
   * fresh replacer, with nothing captured, visits the whole program.
   */
  method Transform(program: Program) returns (r: Result<Program, Error>)
    ensures Traverse(program.body, None).Success? ==>
              r == Success(Program(program.span, Traverse(program.body, None).value.0))
    ensures Traverse(program.body, None).Failure? ==> r == Failure(Traverse(program.body, None).error)
  {
    var replacer := new PiReplacer();
    r := replacer.VisitProgram(program);
  }
}
