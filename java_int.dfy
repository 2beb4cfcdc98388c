/**
 * Java's 32-bit `int`. Values live in [-2^31, 2^31); `+` and `-` compute the
 * mathematical result and then keep only its low 32 bits (two's complement),
 * so an overflowing sum wraps around instead of failing.
 */
module JavaInt {
  const MIN: int := -0x8000_0000
  const MAX: int := 0x7fff_ffff
  const MODULUS: int := 0x1_0000_0000

  type int32 = x: int | MIN <= x <= MAX

  predicate InRange(x: int) { MIN <= x <= MAX }

  /** x and y agree in their low 32 bits. */
  predicate Congruent(x: int, y: int) { (x - y) % MODULUS == 0 }

  /** The two's-complement truncation of x to 32 bits. */
  function Wrap(x: int): (r: int32)
    ensures Congruent(x, r)
    ensures InRange(x) ==> r == x
  {
    var m := x % MODULUS;
    if m <= MAX then m else m - MODULUS
  }

  /** The two postconditions of Wrap determine its result: at most one int32 is congruent to x. */
  lemma WrapUnique(x: int, r: int32)
    requires Congruent(x, r)
    ensures r == Wrap(x)
  {
    var w := Wrap(x);
    assert Congruent(r, w) by { CongruentTrans(r, x, w); }
    assert -MODULUS < r - w < MODULUS;
  }

  lemma CongruentTrans(x: int, y: int, z: int)
    requires Congruent(x, y) && Congruent(y, z)
    ensures Congruent(x, z)
  {
    assert x - z == (x - y) + (y - z);
  }

  /** Congruent inputs wrap to the same int32. */
  lemma WrapCongruent(x: int, y: int)
    requires Congruent(x, y)
    ensures Wrap(x) == Wrap(y)
  {
    CongruentTrans(y, x, Wrap(x));
    WrapUnique(y, Wrap(x));
  }

  /** Java's `a + b` on two ints. */
  function Add32(a: int32, b: int32): (r: int32)
    ensures Congruent(a + b, r)
    ensures InRange(a + b) ==> r == a + b
  {
    Wrap(a + b)
  }

  /** Java's `a - b` on two ints. */
  function Sub32(a: int32, b: int32): (r: int32)
    ensures Congruent(a - b, r)
    ensures InRange(a - b) ==> r == a - b
  {
    Wrap(a - b)
  }

  /** Adding congruent pairs gives congruent sums. */
  lemma CongruentSum(a: int, b: int, c: int, d: int)
    requires Congruent(a, b) && Congruent(c, d)
    ensures Congruent(a + c, b + d)
  {
    var k, l := (a - b) / MODULUS, (c - d) / MODULUS;
    assert (a + c) - (b + d) == (k + l) * MODULUS;
  }

  /** Scaling congruent numbers by the same factor keeps them congruent. */
  lemma CongruentScale(a: int, b: int, n: int)
    requires Congruent(a, b)
    ensures Congruent(n * a, n * b)
  {
    var k := (a - b) / MODULUS;
    assert a - b == k * MODULUS;
    assert n * a - n * b == n * (a - b);
    assert n * a - n * b == (n * k) * MODULUS;
  }

  /** Wrapping after every `+` gives what wrapping once at the end gives. */
  lemma WrapAdd(x: int, y: int)
    ensures Add32(Wrap(x), Wrap(y)) == Wrap(x + y)
  {
    CongruentSum(x, Wrap(x), y, Wrap(y));
    WrapCongruent(x + y, Wrap(x) + Wrap(y));
  }

  /** Wrapping after every `-` gives what wrapping once at the end gives. */
  lemma WrapSub(x: int, y: int)
    ensures Sub32(Wrap(x), Wrap(y)) == Wrap(x - y)
  {
    var wy: int := Wrap(y);
    CongruentScale(y, wy, -1);
    CongruentSum(x, Wrap(x), -y, -wy);
    WrapCongruent(x - y, Wrap(x) - Wrap(y));
  }

  /** One step of String.hashCode (`31 * h + c`) may wrap its accumulator early without changing the outcome. */
  lemma WrapHornerStep(x: int, c: int)
    ensures Wrap(31 * Wrap(x) + c) == Wrap(31 * x + c)
  {
    CongruentScale(x, Wrap(x), 31);
    CongruentSum(31 * x, 31 * Wrap(x), c, c);
    WrapCongruent(31 * x + c, 31 * Wrap(x) + c);
  }
}
