/** The scenarios the test class checks, stated for the model. */
module ExpressionsExamples {
  import opened Decimal
  import opened Literals
  import opened Expressions

  /** "Hello" + " world" evaluates to "Hello world" under both evaluators, and that literal is not the int 42. */
  lemma HelloWorld()
    ensures EvalStatic(Add(Lit(StringLiteral("Hello")), Lit(StringLiteral(" world")))) == Ok(StringLiteral("Hello world"))
    ensures Add(Lit(StringLiteral("Hello")), Lit(StringLiteral(" world"))).Evaluate() == Ok(StringLiteral("Hello world"))
    ensures !IntLiteral(42).Equals(StringLiteral("Hello world"))
    ensures StringLiteral("Hello world").ToString() == "Hello world"
  {
    assert AsTextStatic(StringLiteral("Hello")) + AsTextStatic(StringLiteral(" world")) == "Hello world";
  }

  /** (10 + 20) + " = 30?" renders the int sum before concatenating. */
  lemma NestedConcatenation()
    ensures EvalStatic(Add(Add(Lit(IntLiteral(10)), Lit(IntLiteral(20))), Lit(StringLiteral(" = 30?")))) == Ok(StringLiteral("30 = 30?"))
    ensures Add(Add(Lit(IntLiteral(10)), Lit(IntLiteral(20))), Lit(StringLiteral(" = 30?"))).Evaluate() == Ok(StringLiteral("30 = 30?"))
  {
    var sum := Add(Lit(IntLiteral(10)), Lit(IntLiteral(20)));
    assert EvalStatic(sum) == Ok(IntLiteral(30));
    assert NatToDigits(30) == "30" by {
      assert NatToDigits(3) == "3";
    }
    assert AsTextStatic(IntLiteral(30)) + AsTextStatic(StringLiteral(" = 30?")) == "30 = 30?";
  }

  /** (10 + 20) - 5 is 25 under both evaluators, and 25 is not the string "Hello". */
  lemma IntSubtraction()
    ensures EvalStatic(Sub(Add(Lit(IntLiteral(10)), Lit(IntLiteral(20))), Lit(IntLiteral(5)))) == Ok(IntLiteral(25))
    ensures Sub(Add(Lit(IntLiteral(10)), Lit(IntLiteral(20))), Lit(IntLiteral(5))).Evaluate() == Ok(IntLiteral(25))
    ensures !StringLiteral("Hello").Equals(IntLiteral(25))
  {
  }

  /** "Hello" - "world" fails under both evaluators. */
  lemma StringSubtractionFails()
    ensures EvalStatic(Sub(Lit(StringLiteral("Hello")), Lit(StringLiteral("world")))).InvalidOperation?
    ensures Sub(Lit(StringLiteral("Hello")), Lit(StringLiteral("world"))).Evaluate().InvalidOperation?
  {
  }

  /** Equal literals built separately have equal hash codes; the int 25 hashes to 25 and "Hello" to the value Java computes. */
  lemma EqualHashes()
    ensures IntLiteral(25).HashCode() == IntLiteral(25).HashCode() == 25
    ensures StringLiteral("Hello").HashCode() == StringLiteral("Hello").HashCode() == 69609650
  {
    assert "H"[..0] == "";
    assert "He"[..1] == "H";
    assert "Hel"[..2] == "He";
    assert "Hell"[..3] == "Hel";
    assert "Hello"[..4] == "Hell";
  }
}
