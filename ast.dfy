/**
 * The fragment of the oxc JavaScript AST that the PI replacement pass
 * touches. Every node is a value owned by its parent: a subtree is never
 * shared, so replacing a child through an exclusive reference is the same
 * as building the parent anew with the new child.
 */
module Ast {
  import opened Wrappers

  /** Start and end offsets of a node in the original text. */
  datatype Span = Span(start: nat, end: nat)

  /** The `f64` value of a numeric literal; the pass only copies it. */
  type Number = real

  datatype NumberBase = Float | Decimal | Binary | Octal | Hex

  datatype BinaryOperator =
    | Equality | Inequality | StrictEquality | StrictInequality
    | LessThan | LessEqualThan | GreaterThan | GreaterEqualThan
    | Addition | Subtraction | Multiplication | Division | Remainder | Exponential
    | ShiftLeft | ShiftRight | ShiftRightZeroFill
    | BitwiseOR | BitwiseXOR | BitwiseAnd | In | Instanceof

  /**
   * An expression. `Other` stands for every variant the pass does not
   * inspect (calls, member accesses, string literals, ...), with the
   * sub-expressions it owns, in source order.
   */
  datatype Expression =
    | Identifier(span: Span, name: string)
    | NumericLiteral(span: Span, value: Number, raw: Option<string>, base: NumberBase)
    | BinaryExpr(binary: BinaryExpression)
    | Other(span: Span, children: seq<Expression>)
  {
    function GetSpan(): Span {
      match this
      case Identifier(span, _) => span
      case NumericLiteral(span, _, _, _) => span
      case BinaryExpr(b) => b.span
      case Other(span, _) => span
    }
  }

  datatype BinaryExpression =
    BinaryExpression(span: Span, operator: BinaryOperator, left: Expression, right: Expression)

  /** The binding of a declarator: a simple name or a destructuring pattern. */
  datatype BindingPattern =
    | BindingIdentifier(span: Span, name: string)
    | ObjectPattern(span: Span)
    | ArrayPattern(span: Span)
  {
    /** The bound name, for a simple binding only. */
    function GetIdentifierName(): Option<string> {
      if BindingIdentifier? then Some(name) else None
    }
  }

  datatype VariableDeclarator =
    VariableDeclarator(span: Span, id: BindingPattern, init: Option<Expression>)

  datatype Statement =
    | VariableDeclaration(span: Span, declarations: seq<VariableDeclarator>)
    | ExpressionStatement(span: Span, expression: Expression)
    | OtherStatement(span: Span)

  datatype Program = Program(span: Span, body: seq<Statement>)

  /** `AstBuilder::expression_numeric_literal`: a new literal node. */
  function ExpressionNumericLiteral(span: Span, value: Number, raw: Option<string>, base: NumberBase): Expression {
    NumericLiteral(span, value, raw, base)
  }
}
