/**
 * The literal values of the expression language: `IntLiteral` holds a Java
 * `int`, `StringLiteral` a string. A literal renders as text, compares
 * structurally and hashes consistently with that comparison.
 */
module Literals {
  import opened Wrappers
  import opened JavaInt
  import opened Decimal

  datatype Literal = IntLiteral(value: int32) | StringLiteral(text: string)
  {
    /** The per-variant `asText()`: an int renders as its decimal form, a string as itself. */
    function AsText(): (s: string)
      ensures IntLiteral? ==> ParseInt(s) == Some(value as int)
      ensures StringLiteral? ==> s == text
    {
      match this
      case IntLiteral(v) => ParseRendering(v); IntToText(v)
      case StringLiteral(t) => t
    }

    /** `toString()`, which delegates to `asText()`. */
    function ToString(): (s: string)
      ensures s == AsText()
    {
      AsText()
    }

    /** `equals`: true exactly for the same variant holding an equal value. */
    function Equals(other: Literal): (b: bool)
      ensures b <==> this == other
    {
      match this
      case IntLiteral(v) => other.IntLiteral? && v == other.value
      case StringLiteral(t) => other.StringLiteral? && t == other.text
    }

    /** `hashCode`: `Integer.hashCode(v)`, which is v itself, or `String.hashCode()`. */
    function HashCode(): (h: int32)
      ensures IntLiteral? ==> h == value
      ensures StringLiteral? ==> h == Wrap(PolynomialHash(text))
    {
      match this
      case IntLiteral(v) => v
      case StringLiteral(t) => StringHashIsPolynomial(t); StringHash(t)
    }
  }

  /** The static `Literal.asText(literal)`, which tests the variant instead of dispatching on it; it agrees with the dispatched one. */
  function AsTextStatic(l: Literal): (s: string)
    ensures s == l.AsText()
  {
    if l.IntLiteral? then IntToText(l.value) else l.text
  }

  /** `String.hashCode()`: the accumulator `h = 31 * h + c` over the characters, kept to 32 bits at every step. */
  function StringHash(s: string): int32
  {
    if s == [] then 0 else Wrap(31 * StringHash(s[..|s| - 1]) + s[|s| - 1] as int)
  }

  /** The untruncated Horner form of the polynomial s[0]*31^(n-1) + ... + s[n-1] that `String.hashCode()` documents. */
  function PolynomialHash(s: string): int
  {
    if s == [] then 0 else 31 * PolynomialHash(s[..|s| - 1]) + s[|s| - 1] as int
  }

  /** Truncating at every step gives the documented polynomial truncated once. */
  lemma {:induction false} StringHashIsPolynomial(s: string)
    ensures StringHash(s) == Wrap(PolynomialHash(s))
  {
    if s != [] {
      var p := s[..|s| - 1];
      StringHashIsPolynomial(p);
      WrapHornerStep(PolynomialHash(p), s[|s| - 1] as int);
    }
  }

  /** `equals` is an equivalence relation, as `Object.equals` requires. */
  lemma EqualsIsEquivalence(a: Literal, b: Literal, c: Literal)
    ensures a.Equals(a)
    ensures a.Equals(b) ==> b.Equals(a)
    ensures a.Equals(b) && b.Equals(c) ==> a.Equals(c)
  {
  }

  /** An int literal never equals a string literal, whatever their texts, in either direction. */
  lemma IntNeverEqualsString(n: int32, t: string)
    ensures !IntLiteral(n).Equals(StringLiteral(t))
    ensures !StringLiteral(t).Equals(IntLiteral(n))
  {
  }

  /** Equal literals have equal hash codes. */
  lemma HashConsistentWithEquals(a: Literal, b: Literal)
    requires a.Equals(b)
    ensures a.HashCode() == b.HashCode()
  {
  }

  /** Two literals that render alike and are of the same variant are equal. */
  lemma SameTextSameLiteral(a: Literal, b: Literal)
    requires a.IntLiteral? == b.IntLiteral?
    requires a.AsText() == b.AsText()
    ensures a.Equals(b)
  {
  }
}
