// Divisibility and the greatest common divisor computed by Euclid's
// algorithm, the number theory behind the solver's feasibility test.
module Euclid {

  /** d is a positive divisor of n. */
  predicate Divides(d: int, n: int)
  {
    d > 0 && n % d == 0
  }

  /** Euclid's algorithm: replace (a, b) by (b, a mod b) until b is 0. */
  function Gcd(a: nat, b: nat): (g: nat)
    ensures a > 0 || b > 0 ==> g > 0
    decreases b
  {
    if b == 0 then a else Gcd(b, a % b)
  }

  /** A multiple of d leaves no remainder when divided by d. */
  lemma MultipleOf(d: int, k: int)
    requires d > 0
    ensures Divides(d, d * k)
  {
    var q, r := (d * k) / d, (d * k) % d;
    assert d * k == d * q + r;
    assert d * (k - q) == r;
    if k - q >= 1 {
      assert false;
    } else if k - q <= -1 {
      assert false;
    }
  }

  /** Every integer combination of two multiples of d is a multiple of d. */
  lemma Combination(d: int, m: int, n: int, i: int, j: int)
    requires Divides(d, m) && Divides(d, n)
    ensures Divides(d, i * m + j * n)
  {
    var p, q := m / d, n / d;
    assert m == d * p;
    assert n == d * q;
    assert i * m + j * n == d * (i * p + j * q);
    MultipleOf(d, i * p + j * q);
  }

  /** Divisibility is transitive. */
  lemma DividesTransitive(d: int, g: int, n: int)
    requires Divides(d, g) && Divides(g, n)
    ensures Divides(d, n)
  {
    assert n == (n / g) * g + 0 * g;
    Combination(d, g, g, n / g, 0);
  }

  /** Euclid's result divides both arguments and is positive unless both are 0. */
  lemma {:induction false} GcdDividesBoth(a: nat, b: nat)
    requires a > 0 || b > 0
    ensures Divides(Gcd(a, b), a) && Divides(Gcd(a, b), b)
    decreases b
  {
    if b != 0 {
      var q, r := a / b, a % b;
      var g := Gcd(b, r);
      GcdDividesBoth(b, r);
      Combination(g, b, r, q, 1);
      assert q * b + 1 * r == a;
    }
  }

  /** Every common divisor of the arguments divides Euclid's result. */
  lemma {:induction false} GcdGreatest(a: nat, b: nat, d: int)
    requires Divides(d, a) && Divides(d, b)
    ensures Divides(d, Gcd(a, b))
    decreases b
  {
    if b != 0 {
      assert a % b == 1 * a + (-(a / b)) * b;
      Combination(d, a, b, 1, -(a / b));
      GcdGreatest(b, a % b, d);
    }
  }
}
