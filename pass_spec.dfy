/**
 * What the PI replacement pass means, stated on values: which expressions
 * it reaches, what it makes of them, what a declarator captures, and what a
 * whole program becomes under the default statement walk. The class in
 * module Visitor is proved against these definitions.
 */
module PassSpec {
  import opened Wrappers
  import opened Ast

  /** The name whose value is captured and whose reads are replaced. */
  const TargetName: string := "PI"

  datatype Error =
    | UnboundConstant  // a target read is replaced before anything was captured
    | UnnamedBinding   // a declarator binds a pattern, which has no identifier name

  predicate IsTarget(e: Expression) {
    e.Identifier? && e.name == TargetName
  }

  /** The node that replaces a target read: its span, the value, no raw text, decimal base. */
  function Replacement(span: Span, v: Number): Expression {
    ExpressionNumericLiteral(span, v, None, Decimal)
  }

  /** `e` is a target read, or has one that is reached through binary operands only. */
  predicate ReachesTarget(e: Expression) {
    match e
    case Identifier(_, name) => name == TargetName
    case BinaryExpr(b) => ReachesTarget(b.left) || ReachesTarget(b.right)
    case _ => false
  }

  /** What the pass makes of `e` once `v` has been captured. */
  function Substituted(e: Expression, v: Number): (r: Expression)
    ensures r.GetSpan() == e.GetSpan()
    ensures !ReachesTarget(r)
  {
    match e
    case Identifier(span, name) => if name == TargetName then Replacement(span, v) else e
    case BinaryExpr(b) => BinaryExpr(b.(left := Substituted(b.left, v), right := Substituted(b.right, v)))
    case _ => e
  }

  /** The outcome of visiting `e` in captured state `pi`. */
  function Rewrite(e: Expression, pi: Option<Number>): Result<Expression, Error> {
    if pi.Some? then Success(Substituted(e, pi.value))
    else if ReachesTarget(e) then Failure(UnboundConstant)
    else Success(e)
  }

  /**
   * The replacement step itself: a target read becomes the literal of the
   * captured value, and fails when nothing was captured; any other node
   * stays as it is.
   */
  function ReplaceIfTarget(e: Expression, pi: Option<Number>): (r: Result<Expression, Error>)
    ensures r.Failure? <==> IsTarget(e) && pi.None?
    ensures r.Failure? ==> r.error == UnboundConstant
    ensures r.Success? ==> r.value.GetSpan() == e.GetSpan() && !IsTarget(r.value)
    ensures r.Success? && IsTarget(e) ==> r.value.NumericLiteral? && r.value.value == pi.value
    ensures r.Success? && IsTarget(e) ==> r.value.raw.None? && r.value.base == Decimal
    ensures r.Success? && !IsTarget(e) ==> r.value == e
  {
    if IsTarget(e) then
      match pi
      case None => Failure(UnboundConstant)
      case Some(v) => Success(Replacement(e.span, v))
    else Success(e)
  }

  /** `e'` is `e` with some of the target reads it reaches replaced by `v`, and nothing else changed. */
  predicate SwapsOnlyTargets(e: Expression, e': Expression, v: Number) {
    || e' == e
    || (IsTarget(e) && e' == Replacement(e.span, v))
    || (&& e.BinaryExpr? && e'.BinaryExpr?
        && e'.binary.span == e.binary.span
        && e'.binary.operator == e.binary.operator
        && SwapsOnlyTargets(e.binary.left, e'.binary.left, v)
        && SwapsOnlyTargets(e.binary.right, e'.binary.right, v))
  }

  /** The nodes below the binary spine of `e` where the pass stops descending, left to right. */
  function Frontier(e: Expression): seq<Expression> {
    if e.BinaryExpr? then Frontier(e.binary.left) + Frontier(e.binary.right) else [e]
  }

  /** What the pass does to one frontier node. */
  function AtFrontier(f: Expression, v: Number): Expression {
    if IsTarget(f) then Replacement(f.span, v) else f
  }

  lemma {:induction false} SubstitutedUnreached(e: Expression, v: Number)
    requires !ReachesTarget(e)
    ensures Substituted(e, v) == e
  {
    if e.BinaryExpr? {
      SubstitutedUnreached(e.binary.left, v);
      SubstitutedUnreached(e.binary.right, v);
    }
  }

  lemma {:induction false} SubstitutedSwapsOnlyTargets(e: Expression, v: Number)
    ensures SwapsOnlyTargets(e, Substituted(e, v), v)
  {
    if e.BinaryExpr? {
      SubstitutedSwapsOnlyTargets(e.binary.left, v);
      SubstitutedSwapsOnlyTargets(e.binary.right, v);
    }
  }

  /** Substituted is the only result that swaps just target reads and leaves none reachable. */
  lemma {:induction false} SubstitutedIsOnlyFullSwap(e: Expression, e': Expression, v: Number)
    requires SwapsOnlyTargets(e, e', v)
    requires !ReachesTarget(e')
    ensures e' == Substituted(e, v)
  {
    if e' == e {
      SubstitutedUnreached(e, v);
    } else if IsTarget(e) && e' == Replacement(e.span, v) {
    } else {
      SubstitutedIsOnlyFullSwap(e.binary.left, e'.binary.left, v);
      SubstitutedIsOnlyFullSwap(e.binary.right, e'.binary.right, v);
    }
  }

  /** Every frontier node survives untouched except target reads, which become literals. */
  lemma {:induction false} SubstitutedFrontier(e: Expression, v: Number)
    ensures |Frontier(Substituted(e, v))| == |Frontier(e)|
    ensures forall k :: 0 <= k < |Frontier(e)| ==>
              Frontier(Substituted(e, v))[k] == AtFrontier(Frontier(e)[k], v)
  {
    if e.BinaryExpr? {
      var l, r := e.binary.left, e.binary.right;
      SubstitutedFrontier(l, v);
      SubstitutedFrontier(r, v);
      assert Frontier(Substituted(e, v)) == Frontier(Substituted(l, v)) + Frontier(Substituted(r, v));
      assert Frontier(e) == Frontier(l) + Frontier(r);
    }
  }

  /** Applying the substitution to its own output, with any value, changes nothing. */
  lemma SubstitutedIdempotent(e: Expression, v: Number, w: Number)
    ensures Substituted(Substituted(e, v), w) == Substituted(e, v)
  {
    SubstitutedUnreached(Substituted(e, v), w);
  }

  /** Visiting the result of a visit again, in the same state, succeeds and changes nothing. */
  lemma RewriteIdempotent(e: Expression, pi: Option<Number>)
    requires Rewrite(e, pi).Success?
    ensures Rewrite(Rewrite(e, pi).value, pi) == Rewrite(e, pi)
  {
    if pi.Some? {
      SubstitutedIdempotent(e, pi.value, pi.value);
    }
  }

  /**
   * The replacement repeated on an operand after it was visited never
   * changes it and never fails: a visited expression is no target read.
   */
  lemma SecondReplacementIsRedundant(e: Expression, pi: Option<Number>)
    requires Rewrite(e, pi).Success?
    ensures ReplaceIfTarget(Rewrite(e, pi).value, pi) == Rewrite(e, pi)
  {
  }

  // ----- Capture -----

  /** Visiting `d` captures: it binds the target name and is initialised by a numeric literal. */
  predicate Captures(d: VariableDeclarator) {
    d.id.GetIdentifierName() == Some(TargetName) && d.init.Some? && d.init.value.NumericLiteral?
  }

  /** The state after visiting `ds` in order from state `pi`. */
  function LastCapture(ds: seq<VariableDeclarator>, pi: Option<Number>): Option<Number> {
    if |ds| == 0 then pi
    else if Captures(ds[|ds| - 1]) then Some(ds[|ds| - 1].init.value.value)
    else LastCapture(ds[..|ds| - 1], pi)
  }

  /** The last capturing declarator decides the state, whatever came before it. */
  lemma {:induction false} LastCaptureIsLast(ds: seq<VariableDeclarator>, pi: Option<Number>, k: nat)
    requires k < |ds| && Captures(ds[k])
    requires forall j :: k < j < |ds| ==> !Captures(ds[j])
    ensures LastCapture(ds, pi) == Some(ds[k].init.value.value)
  {
    if k < |ds| - 1 {
      var pre := ds[..|ds| - 1];
      assert forall j :: k < j < |pre| ==> pre[j] == ds[j];
      LastCaptureIsLast(pre, pi, k);
    }
  }

  /** Without a capturing declarator the state is left as it was. */
  lemma {:induction false} LastCaptureWithoutCapture(ds: seq<VariableDeclarator>, pi: Option<Number>)
    requires forall j :: 0 <= j < |ds| ==> !Captures(ds[j])
    ensures LastCapture(ds, pi) == pi
  {
    if |ds| > 0 {
      var pre := ds[..|ds| - 1];
      assert forall j :: 0 <= j < |pre| ==> pre[j] == ds[j];
      LastCaptureWithoutCapture(pre, pi);
    }
  }

  /** A captured value is never reset to nothing. */
  lemma {:induction false} LastCaptureNeverResets(ds: seq<VariableDeclarator>, pi: Option<Number>)
    requires pi.Some?
    ensures LastCapture(ds, pi).Some?
  {
    if |ds| > 0 {
      LastCaptureNeverResets(ds[..|ds| - 1], pi);
    }
  }

  lemma {:induction false} LastCaptureAppend(a: seq<VariableDeclarator>, b: seq<VariableDeclarator>, pi: Option<Number>)
    ensures LastCapture(a + b, pi) == LastCapture(b, LastCapture(a, pi))
  {
    if |b| == 0 {
      assert a + b == a;
    } else {
      assert (a + b)[..|a + b| - 1] == a + b[..|b| - 1];
      LastCaptureAppend(a, b[..|b| - 1], pi);
    }
  }

  // ----- Statements and programs under the default walk -----

  predicate AllNamed(ds: seq<VariableDeclarator>) {
    forall k :: 0 <= k < |ds| ==> ds[k].id.GetIdentifierName().Some?
  }

  /** Visiting one statement in state `pi`: the statement it becomes and the new state. */
  function Step(s: Statement, pi: Option<Number>): Result<(Statement, Option<Number>), Error> {
    match s
    case VariableDeclaration(_, ds) =>
      if AllNamed(ds) then Success((s, LastCapture(ds, pi))) else Failure(UnnamedBinding)
    case ExpressionStatement(span, e) =>
      (match Rewrite(e, pi)
       case Success(e') => Success((ExpressionStatement(span, e'), pi))
       case Failure(err) => Failure(err))
    case OtherStatement(_) => Success((s, pi))
  }

  /** Visiting a program body in order from state `pi`: the new body and the final state. */
  function Traverse(body: seq<Statement>, pi: Option<Number>): Result<(seq<Statement>, Option<Number>), Error> {
    if |body| == 0 then Success(([], pi)) else Extend(Traverse(body[..|body| - 1], pi), body[|body| - 1])
  }

  /** Visiting `s` after a prefix of the body was visited with outcome `done`. */
  function Extend(done: Result<(seq<Statement>, Option<Number>), Error>, s: Statement): Result<(seq<Statement>, Option<Number>), Error> {
    if done.Failure? then done
    else
      var next := Step(s, done.value.1);
      if next.Failure? then Failure(next.error) else Success((done.value.0 + [next.value.0], next.value.1))
  }

  function DeclaratorsOf(s: Statement): seq<VariableDeclarator> {
    if s.VariableDeclaration? then s.declarations else []
  }

  /** All declarators of `body`, in visiting order. */
  function Declarators(body: seq<Statement>): seq<VariableDeclarator> {
    if |body| == 0 then [] else Declarators(body[..|body| - 1]) + DeclaratorsOf(body[|body| - 1])
  }

  /** The captured state when statement `i` of `body` is reached. */
  function StateBefore(body: seq<Statement>, i: nat, pi: Option<Number>): Option<Number>
    requires i <= |body|
  {
    LastCapture(Declarators(body[..i]), pi)
  }

  /** Visiting `s` in state `pi` fails. */
  predicate Blocked(s: Statement, pi: Option<Number>) {
    || (s.VariableDeclaration? && !AllNamed(s.declarations))
    || (s.ExpressionStatement? && pi.None? && ReachesTarget(s.expression))
  }

  /** What `s` becomes when visited in state `pi`. */
  function Settled(s: Statement, pi: Option<Number>): Statement {
    if s.ExpressionStatement? && pi.Some? then ExpressionStatement(s.span, Substituted(s.expression, pi.value))
    else s
  }

  lemma StepOutcome(s: Statement, pi: Option<Number>)
    ensures Step(s, pi).Success? <==> !Blocked(s, pi)
    ensures Step(s, pi).Success? ==> Step(s, pi).value == (Settled(s, pi), LastCapture(DeclaratorsOf(s), pi))
  {
    if s.ExpressionStatement? && pi.None? && !ReachesTarget(s.expression) {
      assert Rewrite(s.expression, pi) == Success(s.expression);
    }
  }

  /** Statements before the last one are reached in the same state as in the body without it. */
  lemma StateBeforeOfPrefix(body: seq<Statement>, pi: Option<Number>)
    requires |body| > 0
    ensures forall i :: 0 <= i < |body| ==> StateBefore(body, i, pi) == StateBefore(body[..|body| - 1], i, pi)
  {
    var pre := body[..|body| - 1];
    forall i | 0 <= i < |body|
      ensures StateBefore(body, i, pi) == StateBefore(pre, i, pi)
    {
      assert body[..i] == pre[..i];
    }
  }

  /** A program body succeeds exactly when no statement is blocked in the state it is reached in. */
  lemma {:induction false} TraverseSucceedsIff(body: seq<Statement>, pi: Option<Number>)
    ensures Traverse(body, pi).Success? <==> forall i :: 0 <= i < |body| ==> !Blocked(body[i], StateBefore(body, i, pi))
  {
    if |body| > 0 {
      var n := |body|;
      var pre := body[..n - 1];
      var last := body[n - 1];
      assert Traverse(body, pi) == Extend(Traverse(pre, pi), last);
      TraverseSucceedsIff(pre, pi);
      StateBeforeOfPrefix(body, pi);
      assert forall i :: 0 <= i < n - 1 ==> body[i] == pre[i];
      if Traverse(pre, pi).Success? {
        TraverseResult(pre, pi);
        var st := StateBefore(body, n - 1, pi);
        assert Traverse(pre, pi).value.1 == st by {
          assert body[..n - 1] == pre;
        }
        StepOutcome(last, st);
        if Step(last, st).Success? {
          forall i | 0 <= i < n
            ensures !Blocked(body[i], StateBefore(body, i, pi))
          {
            if i < n - 1 {
              assert !Blocked(pre[i], StateBefore(pre, i, pi));
            }
          }
        } else {
          assert Blocked(body[n - 1], StateBefore(body, n - 1, pi));
        }
      } else {
        var i :| 0 <= i < n - 1 && Blocked(pre[i], StateBefore(pre, i, pi));
        assert Blocked(body[i], StateBefore(body, i, pi));
      }
    }
  }

  /**
   * On success, declarations and other statements are kept, each expression
   * statement is rewritten with the value of the last capturing declarator
   * before it, and the final state is that of the last capturing declarator
   * of the whole body.
   */
  lemma {:induction false} TraverseResult(body: seq<Statement>, pi: Option<Number>)
    requires Traverse(body, pi).Success?
    ensures |Traverse(body, pi).value.0| == |body|
    ensures Traverse(body, pi).value.1 == LastCapture(Declarators(body), pi)
    ensures forall i :: 0 <= i < |body| ==> Traverse(body, pi).value.0[i] == Settled(body[i], StateBefore(body, i, pi))
  {
    if |body| > 0 {
      var n := |body|;
      var pre := body[..n - 1];
      var last := body[n - 1];
      assert Traverse(body, pi) == Extend(Traverse(pre, pi), last);
      TraverseResult(pre, pi);
      var out := Traverse(pre, pi).value.0;
      var p1 := Traverse(pre, pi).value.1;
      assert p1 == StateBefore(body, n - 1, pi) by {
        assert body[..n - 1] == pre;
      }
      StepOutcome(last, p1);
      var s' := Step(last, p1).value.0;
      var res := Traverse(body, pi).value.0;
      assert res == out + [s'];
      assert Traverse(body, pi).value.1 == LastCapture(Declarators(body), pi) by {
        LastCaptureAppend(Declarators(pre), DeclaratorsOf(last), pi);
      }
      StateBeforeOfPrefix(body, pi);
      forall i | 0 <= i < n
        ensures res[i] == Settled(body[i], StateBefore(body, i, pi))
      {
        if i < n - 1 {
          assert res[i] == out[i] && body[i] == pre[i];
        }
      }
    }
  }

  lemma {:induction false} TraverseFailureSticky(body: seq<Statement>, k: nat, pi: Option<Number>)
    requires k <= |body|
    requires Traverse(body[..k], pi).Failure?
    ensures Traverse(body, pi) == Traverse(body[..k], pi)
    decreases |body| - k
  {
    if k < |body| {
      var pre := body[..|body| - 1];
      assert pre[..k] == body[..k];
      TraverseFailureSticky(pre, k, pi);
    } else {
      assert body[..k] == body;
    }
  }

  lemma StepIdempotent(s: Statement, pi: Option<Number>)
    requires Step(s, pi).Success?
    ensures Step(Step(s, pi).value.0, pi) == Step(s, pi)
  {
    if s.ExpressionStatement? {
      RewriteIdempotent(s.expression, pi);
    }
  }

  /** Running the pass again, from the same state, on its own output gives that output back. */
  lemma {:induction false} TraverseIdempotent(body: seq<Statement>, pi: Option<Number>)
    requires Traverse(body, pi).Success?
    ensures Traverse(Traverse(body, pi).value.0, pi) == Traverse(body, pi)
  {
    if |body| > 0 {
      var n := |body|;
      var pre := body[..n - 1];
      TraverseIdempotent(pre, pi);
      TraverseResult(pre, pi);
      var (out', p1) := Traverse(pre, pi).value;
      StepIdempotent(body[n - 1], p1);
      var out := Traverse(body, pi).value.0;
      assert out == out' + [Step(body[n - 1], p1).value.0];
      assert out[..n - 1] == out';
    }
  }

  /** `r` with `s` put in front of its statements. */
  function Prefixed(s: Statement, r: Result<(seq<Statement>, Option<Number>), Error>): Result<(seq<Statement>, Option<Number>), Error> {
    if r.Failure? then r else Success(([s] + r.value.0, r.value.1))
  }

  /**
   * The walk read from the front: the first statement is visited, and the
   * rest of the body is visited from the state it leaves.
   */
  lemma {:induction false} TraverseFront(s: Statement, rest: seq<Statement>, pi: Option<Number>)
    ensures Step(s, pi).Failure? ==> Traverse([s] + rest, pi) == Failure(Step(s, pi).error)
    ensures Step(s, pi).Success? ==>
              Traverse([s] + rest, pi) == Prefixed(Step(s, pi).value.0, Traverse(rest, Step(s, pi).value.1))
  {
    var body := [s] + rest;
    if |rest| == 0 {
      assert body == [s];
      assert body[..0] == [];
      assert Traverse(body, pi) == Extend(Success(([], pi)), s);
      if Step(s, pi).Success? {
        assert Traverse(rest, Step(s, pi).value.1) == Success(([], Step(s, pi).value.1));
        assert [] + [Step(s, pi).value.0] == [Step(s, pi).value.0] + [];
      }
    } else {
      var n := |rest|;
      assert body[..|body| - 1] == [s] + rest[..n - 1];
      assert body[|body| - 1] == rest[n - 1];
      TraverseFront(s, rest[..n - 1], pi);
      if Step(s, pi).Success? {
        var (s', p1) := Step(s, pi).value;
        var done := Traverse(rest[..n - 1], p1);
        assert Traverse(rest, p1) == Extend(done, rest[n - 1]);
        assert Traverse(body, pi) == Extend(Prefixed(s', done), rest[n - 1]);
        if done.Success? {
          var next := Step(rest[n - 1], done.value.1);
          if next.Success? {
            assert ([s'] + done.value.0) + [next.value.0] == [s'] + (done.value.0 + [next.value.0]);
          }
        }
      }
    }
  }
}
