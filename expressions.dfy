/**
 * Expression trees over literals and the two evaluators of the system: the
 * centralized `EvalStatic`, which tests the node kind itself, and the
 * dispatched `Expr.Evaluate`, where each node kind supplies its own
 * `compute`. Subtracting anything but two ints is the one failure; it is an
 * explicit `InvalidOperation` result carrying the message the code throws.
 */
module Expressions {
  import opened Wrappers
  import opened JavaInt
  import opened Literals

  /** A literal, or the failure of a subtraction on a non-int operand. */
  datatype Result = Ok(value: Literal) | InvalidOperation(message: string)
  {
    predicate IsFailure() { InvalidOperation? }

    function PropagateFailure(): Result
      requires IsFailure()
    {
      this
    }

    function Extract(): Literal
      requires Ok?
    {
      value
    }
  }

  /** A literal is itself an expression; each operator node owns its left (e1) and right (e2) operand. */
  datatype Expr = Lit(lit: Literal) | Add(e1: Expr, e2: Expr) | Sub(e1: Expr, e2: Expr)
  {
    /** The dispatched `evaluate()`: a literal yields itself; an operator node evaluates e1, then e2, then its own `compute`. */
    function Evaluate(): (r: Result)
      ensures Lit? ==> r == Ok(lit)
      ensures r.InvalidOperation? ==> HasSub(this)
    {
      if Lit? then Ok(lit)
      else
        var v1 :- e1.Evaluate();
        var v2 :- e2.Evaluate();
        Compute(v1, v2)
    }

    /** The operator-specific `compute`, selected by the node kind. */
    function Compute(v1: Literal, v2: Literal): (r: Result)
      requires !Lit?
      ensures r.InvalidOperation? ==> Sub?
    {
      if Add? then AddCompute(v1, v2) else SubCompute(v1, v2)
    }
  }

  /** Some node of e is a subtraction. */
  predicate HasSub(e: Expr)
  {
    match e
    case Lit(_) => false
    case Add(a, b) => HasSub(a) || HasSub(b)
    case Sub(_, _) => true
  }

  /** `AddExpression.compute`: int + int is Java's wrapping int addition; any other pair concatenates the operands' texts. Addition never fails. */
  function AddCompute(v1: Literal, v2: Literal): (r: Result)
    ensures r.Ok?
    ensures r.value.IntLiteral? <==> v1.IntLiteral? && v2.IntLiteral?
    ensures r.value.IntLiteral? ==> Congruent(r.value.value, v1.value + v2.value)
    ensures r.value.IntLiteral? && InRange(v1.value + v2.value) ==> r.value.value == v1.value + v2.value
    ensures r.value.StringLiteral? ==> r.value.text == v1.AsText() + v2.AsText()
  {
    if v1.IntLiteral? && v2.IntLiteral? then Ok(IntLiteral(Add32(v1.value, v2.value)))
    else Ok(StringLiteral(v1.AsText() + v2.AsText()))
  }

  /** `SubtractExpression.compute`: int - int is Java's wrapping int subtraction; any other pair fails. */
  function SubCompute(v1: Literal, v2: Literal): (r: Result)
    ensures r.Ok? <==> v1.IntLiteral? && v2.IntLiteral?
    ensures r.Ok? ==> r.value.IntLiteral? && Congruent(r.value.value, v1.value - v2.value)
    ensures r.Ok? && InRange(v1.value - v2.value) ==> r.value.value == v1.value - v2.value
  {
    if v1.IntLiteral? && v2.IntLiteral? then Ok(IntLiteral(Sub32(v1.value, v2.value)))
    else InvalidOperation("Can't subtract strings!")
  }

  /** The static `Expression.evaluate(e)`: one function that tests the node kind and combines the operands itself. */
  function EvalStatic(e: Expr): (r: Result)
    ensures e.Lit? ==> r == Ok(e.lit)
    ensures r.InvalidOperation? ==> HasSub(e)
  {
    if e.Lit? then Ok(e.lit)
    else
      var v1 :- EvalStatic(e.e1);
      var v2 :- EvalStatic(e.e2);
      if e.Add? then
        if v1.IntLiteral? && v2.IntLiteral? then Ok(IntLiteral(Add32(v1.value, v2.value)))
        else Ok(StringLiteral(AsTextStatic(v1) + AsTextStatic(v2)))
      else
        if v1.IntLiteral? && v2.IntLiteral? then Ok(IntLiteral(Sub32(v1.value, v2.value)))
        else InvalidOperation("Cannot subtract strings!")
  }

  /** Both evaluators returned equal literals, or both failed (their messages differ). */
  predicate SameOutcome(r1: Result, r2: Result)
  {
    (r1.Ok? && r2.Ok? && r1.value.Equals(r2.value)) || (r1.InvalidOperation? && r2.InvalidOperation?)
  }

  /** The central law: the static and the dispatched evaluator agree on every tree. */
  lemma {:induction false} EvaluatorsAgree(e: Expr)
    ensures SameOutcome(EvalStatic(e), e.Evaluate())
  {
    if !e.Lit? {
      EvaluatorsAgree(e.e1);
      EvaluatorsAgree(e.e2);
    }
  }

  // ----- An independent reference: the kind of a tree's value, read off the tree without evaluating it -----

  datatype Kind = IntKind | StringKind

  function KindOf(l: Literal): Kind
  {
    if l.IntLiteral? then IntKind else StringKind
  }

  /** The kind of value e evaluates to, or None when some subtraction in e meets a string. */
  function TypeOf(e: Expr): Option<Kind>
  {
    match e
    case Lit(l) => Some(KindOf(l))
    case Add(a, b) =>
      (match (TypeOf(a), TypeOf(b))
       case (Some(IntKind), Some(IntKind)) => Some(IntKind)
       case (Some(_), Some(_)) => Some(StringKind)
       case _ => None)
    case Sub(a, b) =>
      if TypeOf(a) == Some(IntKind) && TypeOf(b) == Some(IntKind) then Some(IntKind) else None
  }

  /** Evaluation fails exactly on ill-typed trees, and otherwise yields a literal of the predicted kind. */
  lemma {:induction false} EvalStaticMatchesType(e: Expr)
    ensures EvalStatic(e).Ok? <==> TypeOf(e).Some?
    ensures EvalStatic(e).Ok? ==> KindOf(EvalStatic(e).value) == TypeOf(e).value
  {
    if !e.Lit? {
      EvalStaticMatchesType(e.e1);
      EvalStaticMatchesType(e.e2);
    }
  }

  // ----- A second reference: trees of ints only compute Java int arithmetic -----

  predicate IntOnly(e: Expr)
  {
    match e
    case Lit(l) => l.IntLiteral?
    case Add(a, b) => IntOnly(a) && IntOnly(b)
    case Sub(a, b) => IntOnly(a) && IntOnly(b)
  }

  /** The value of an int-only tree in unbounded integer arithmetic. */
  function MathValue(e: Expr): int
    requires IntOnly(e)
  {
    match e
    case Lit(l) => l.value
    case Add(a, b) => MathValue(a) + MathValue(b)
    case Sub(a, b) => MathValue(a) - MathValue(b)
  }

  /** An int-only tree never fails and yields its mathematical value truncated to 32 bits, whatever overflows on the way. */
  lemma {:induction false} IntOnlyIsWrappedMath(e: Expr)
    requires IntOnly(e)
    ensures EvalStatic(e) == Ok(IntLiteral(Wrap(MathValue(e))))
  {
    match e
    case Lit(l) =>
    case Add(a, b) =>
      IntOnlyIsWrappedMath(a);
      IntOnlyIsWrappedMath(b);
      AddOfInts(a, b, Wrap(MathValue(a)), Wrap(MathValue(b)));
      WrapAdd(MathValue(a), MathValue(b));
    case Sub(a, b) =>
      IntOnlyIsWrappedMath(a);
      IntOnlyIsWrappedMath(b);
      SubOfInts(a, b, Wrap(MathValue(a)), Wrap(MathValue(b)));
      WrapSub(MathValue(a), MathValue(b));
  }

  lemma AddOfInts(a: Expr, b: Expr, x: int32, y: int32)
    requires EvalStatic(a) == Ok(IntLiteral(x)) && EvalStatic(b) == Ok(IntLiteral(y))
    ensures EvalStatic(Add(a, b)) == Ok(IntLiteral(Add32(x, y)))
  {
  }

  lemma SubOfInts(a: Expr, b: Expr, x: int32, y: int32)
    requires EvalStatic(a) == Ok(IntLiteral(x)) && EvalStatic(b) == Ok(IntLiteral(y))
    ensures EvalStatic(Sub(a, b)) == Ok(IntLiteral(Sub32(x, y)))
  {
  }

  /** A subtraction fails under both evaluators as soon as one evaluated operand is a string. */
  lemma SubOfStringFails(a: Expr, b: Expr)
    requires EvalStatic(a).Ok? && EvalStatic(b).Ok?
    requires EvalStatic(a).value.StringLiteral? || EvalStatic(b).value.StringLiteral?
    ensures EvalStatic(Sub(a, b)).InvalidOperation?
    ensures Sub(a, b).Evaluate().InvalidOperation?
  {
    EvaluatorsAgree(Sub(a, b));
  }
}
