# Expressions: a verified model of a two-evaluator expression language

The system represents expressions over two kinds of literal: a Java `int` (`IntLiteral`) and a string (`StringLiteral`). It has two binary operators, addition and subtraction, and two evaluators with the same meaning:

- the static `Expression.evaluate(e)`, one function that tests the node kind itself;
- the dispatched `e.evaluate()`, where each node kind evaluates itself and each operator supplies its own `compute(v1, v2)`.

Adding two ints gives their int sum. Adding any other pair gives the concatenation of the operands' texts. Subtracting two ints gives their difference. Subtracting anything else is the only failure.

Modules:

- `JavaInt`: the 32-bit `int`. `+` and `-` wrap around in two's complement.
- `Decimal`: `String.valueOf(int)`, with a parser for its canonical form, proved to be its inverse.
- `Literals`: the `Literal` datatype with `asText` (dispatched and static), `toString`, `equals` and `hashCode`, plus `String.hashCode()`.
- `Expressions`: the expression tree, the failure result and both evaluators. It proves that the evaluators agree on every tree. It also defines two independent references: a kind checker that predicts failure without evaluating, and unbounded arithmetic for int-only trees.
- `ExpressionsExamples`: the scenarios that the test class asserts.

Modelling choices:

- The thrown `RuntimeException` becomes the result `InvalidOperation(message)`, which carries the message each evaluator throws.
- The two evaluators throw different messages ("Cannot subtract strings!" and "Can't subtract strings!"). Agreement therefore means "equal literals, or both fail".
- Java `int` `+` and `-` wrap around in two's complement; `Add32` and `Sub32` do the same.
- Both evaluators evaluate `e1` before `e2`. Evaluation is pure and has only one failure kind, so the order cannot be observed. The model keeps it anyway: each `:-` binds `e1` first.

## Model

| member | source | states |
|---|---|---|
| JavaInt.Add32 | expressions/src/expressions/ExpressionsTest.java:16-17 | Java `int` `+`: the result agrees with the true sum in its low 32 bits, and equals it when the sum fits |
| JavaInt.Sub32 | expressions/src/expressions/ExpressionsTest.java:21-22 | Java `int` `-`: the result agrees with the true difference in its low 32 bits, and equals it when the difference fits |
| JavaInt.WrapUnique | expressions/src/expressions/ExpressionsTest.java:17 | the 32-bit result of an int operation is the only int32 congruent to the true value |
| JavaInt.WrapAdd | expressions/src/expressions/ExpressionsTest.java:17 | wrapping the operands before `+` gives the same result as wrapping once after |
| JavaInt.WrapSub | expressions/src/expressions/ExpressionsTest.java:22 | wrapping the operands before `-` gives the same result as wrapping once after |
| JavaInt.WrapHornerStep | expressions/src/expressions/ExpressionsTest.java:78 | one `31 * h + c` step of `String.hashCode()` may truncate its accumulator early without changing the result |
| Decimal.NatToDigits | expressions/src/expressions/ExpressionsTest.java:35 | the digits of a magnitude are a non-empty digit string with no leading zero |
| Decimal.IntToText | expressions/src/expressions/ExpressionsTest.java:35 | `String.valueOf(int)` is non-empty and starts with '-' exactly when the value is negative |
| Decimal.ParseRendering | expressions/src/expressions/ExpressionsTest.java:35 | the decimal rendering of every int reads back as that int |
| Decimal.RenderingOfParse | expressions/src/expressions/ExpressionsTest.java:35 | every string that reads back as an int is exactly that int's rendering, so the rendering is canonical |
| Decimal.RenderingInjective | expressions/src/expressions/ExpressionsTest.java:49 | distinct ints render as distinct texts |
| Literals.Literal.AsText | expressions/src/expressions/ExpressionsTest.java:41-49 | an IntLiteral renders as text that reads back as its value; a StringLiteral renders as its raw text |
| Literals.Literal.ToString | expressions/src/expressions/ExpressionsTest.java:42 | `toString()` of a literal is its `asText()` |
| Literals.Literal.Equals | expressions/src/expressions/ExpressionsTest.java:52-56 | `equals` holds iff both literals are the same variant with equal values (for both variants, lines 52-56 and 70-74) |
| Literals.Literal.HashCode | expressions/src/expressions/ExpressionsTest.java:58-61 | an IntLiteral hashes to its value; a StringLiteral hashes to the 32-bit truncation of the polynomial `String.hashCode()` documents (lines 76-79) |
| Literals.AsTextStatic | expressions/src/expressions/ExpressionsTest.java:33-39 | the static `asText(literal)` agrees with the dispatched `asText()` on every literal |
| Literals.StringHashIsPolynomial | expressions/src/expressions/ExpressionsTest.java:77-79 | accumulating `31 * h + c` in 32 bits equals truncating the full polynomial once |
| Literals.EqualsIsEquivalence | expressions/src/expressions/ExpressionsTest.java:70-74 | `equals` is reflexive, symmetric and transitive |
| Literals.IntNeverEqualsString | expressions/src/expressions/ExpressionsTest.java:52-56 | an IntLiteral never equals a StringLiteral, in either direction, whatever the texts |
| Literals.HashConsistentWithEquals | expressions/src/expressions/ExpressionsTest.java:58-79 | equal literals have equal hash codes |
| Literals.SameTextSameLiteral | expressions/src/expressions/ExpressionsTest.java:33-39 | two literals of the same variant that render alike are equal |
| Expressions.Expr.Evaluate | expressions/src/expressions/ExpressionsTest.java:84-88 | the dispatched `evaluate()` returns a literal itself (line 43), and only fails on a tree that contains a subtraction |
| Expressions.Expr.Compute | expressions/src/expressions/ExpressionsTest.java:89 | the operator-specific `compute` can fail only at a subtraction node |
| Expressions.AddCompute | expressions/src/expressions/ExpressionsTest.java:97-101 | addition never fails; its result is an int iff both operands are; an int result is the wrapped sum; otherwise the result is the concatenation of the operands' texts |
| Expressions.SubCompute | expressions/src/expressions/ExpressionsTest.java:109-113 | subtraction succeeds iff both operands are ints, and then yields the wrapped difference |
| Expressions.EvalStatic | expressions/src/expressions/ExpressionsTest.java:9-25 | the static `evaluate(e)` returns a literal itself, and only fails on a tree that contains a subtraction |
| Expressions.EvaluatorsAgree | expressions/src/expressions/ExpressionsTest.java:9-25 | on every tree the static and the dispatched evaluator (lines 84-113) return equal literals or both fail |
| Expressions.EvalStaticMatchesType | expressions/src/expressions/ExpressionsTest.java:15-23 | evaluation fails iff the kind checker finds a subtraction meeting a string, and otherwise yields a literal of the predicted kind |
| Expressions.IntOnlyIsWrappedMath | expressions/src/expressions/ExpressionsTest.java:13-22 | a tree of ints never fails and yields its unbounded arithmetic value truncated to 32 bits, whatever overflows on the way |
| Expressions.SubOfStringFails | expressions/src/expressions/ExpressionsTest.java:109-113 | a subtraction fails under both evaluators when either evaluated operand is a string (line 23 for the static one) |
| ExpressionsExamples.HelloWorld | expressions/src/expressions/ExpressionsTest.java:121-126 | "Hello" + " world" is "Hello world" under both evaluators; it is not the int 42; its `toString()` is its text |
| ExpressionsExamples.NestedConcatenation | expressions/src/expressions/ExpressionsTest.java:129-132 | (10 + 20) + " = 30?" is "30 = 30?" under both evaluators |
| ExpressionsExamples.IntSubtraction | expressions/src/expressions/ExpressionsTest.java:135-138 | (10 + 20) - 5 is 25 under both evaluators, and 25 is not the string "Hello" |
| ExpressionsExamples.StringSubtractionFails | expressions/src/expressions/ExpressionsTest.java:140-143 | "Hello" - "world" fails under both evaluators |
| ExpressionsExamples.EqualHashes | expressions/src/expressions/ExpressionsTest.java:146-147 | separately built equal literals hash alike; the int 25 hashes to 25; "Hello" hashes to 69609650, Java's value |

## Left out

- Literals.Literal.HashCode: Java hashes the UTF-16 code units of a string, while the model hashes Dafny characters (Unicode scalar values). The two agree on every string without characters above U+FFFF and differ otherwise.
- `null` string values: both versions of `asText` return a null value unchanged, and Java's string `+` renders it as "null", so `StringLiteral(null) + "x"` evaluates to "nullx" under both evaluators. Only `equals` and `hashCode` called on such a literal dereference it and throw. The datatype cannot hold null, so none of this is modelled.
- `null` children: an operator node with a null child throws when it is evaluated (lines 13 and 85). The datatype cannot hold null.
- `equals(Object)` against objects that are not literals, and the identity-based `equals`/`hashCode` of operator nodes, are not modelled. Only literal-to-literal comparison is.
- The `assert e_ instanceof SubtractExpression` at line 20 is not modelled as a runtime check. The closed `Expr` datatype makes the else branch a subtraction by construction.
- Exception unwinding is replaced by a returned `InvalidOperation` value. The message text is carried, but no property depends on it.
- Stack exhaustion on very deep trees (`StackOverflowError`) is not modelled. Evaluation here is total on every finite tree.
- The public fields `e1` and `e2` could be reassigned after construction, but the code never does this. The immutable datatype does not model aliasing or later mutation.
- The JUnit class `ExpressionsTest` (lines 116-150) is not modelled as code. Its assertions appear as the lemmas of `ExpressionsExamples`.
