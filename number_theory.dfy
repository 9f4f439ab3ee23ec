/**
 * Elementary number theory over the mathematical integers: divisibility,
 * greatest common divisors, primes, powers, and the congruence facts that
 * the modular-arithmetic routines of the RSA engine rely on.
 *
 * Everything here is stated with Dafny's Euclidean `/` and `%`; the operands
 * that matter are non-negative, where that agrees with C++ unsigned division.
 */
module NumberTheory {

  /** `d` divides `x`; zero divides only zero. */
  predicate Divides(d: nat, x: int) {
    if d == 0 then x == 0 else x % d == 0
  }

  /** `g` is the greatest common divisor of `a` and `b`: a common divisor that
      every common divisor divides. */
  ghost predicate IsGcd(g: nat, a: nat, b: nat) {
    Divides(g, a) && Divides(g, b) &&
    forall c: nat :: Divides(c, a) && Divides(c, b) ==> Divides(c, g)
  }

  ghost predicate Coprime(a: nat, b: nat) {
    IsGcd(1, a, b)
  }

  ghost predicate IsPrime(p: nat) {
    p >= 2 && forall d: nat :: 2 <= d < p ==> !Divides(d, p)
  }

  function Pow(a: nat, k: nat): nat {
    if k == 0 then 1 else a * Pow(a, k - 1)
  }

  // ---------------------------------------------------------------------
  // Division with remainder

  /** Quotient and remainder are determined by `x == m * q + r, 0 <= r < m`. */
  lemma DivModUnique(x: int, m: int, q: int, r: int)
    requires m > 0 && 0 <= r < m && x == m * q + r
    ensures x / m == q && x % m == r
  {
    var q0, r0 := x / m, x % m;
    assert m * (q - q0) == r0 - r;
    if q > q0 {
      MulAtLeastFactor(m, q - q0);
    } else if q < q0 {
      MulAtLeastFactor(m, q0 - q);
    }
  }

  lemma MulAtLeastFactor(m: int, k: int)
    requires m > 0 && k >= 1
    ensures m * k >= m
  {
  }

  lemma ModAddMultiple(x: int, k: int, m: int)
    requires m > 0
    ensures (x + m * k) % m == x % m
  {
    assert x + m * k == m * (x / m + k) + x % m;
    DivModUnique(x + m * k, m, x / m + k, x % m);
  }

  lemma ModMulLeft(u: int, v: int, m: int)
    requires m > 0
    ensures (u * v) % m == ((u % m) * v) % m
  {
    var q, r := u / m, u % m;
    assert u * v == r * v + m * (q * v) by {
      assert u == m * q + r;
    }
    ModAddMultiple(r * v, q * v, m);
  }

  /** Multiplication is compatible with congruence modulo `m`. */
  lemma ModMul(u: int, v: int, m: int)
    requires m > 0
    ensures (u * v) % m == ((u % m) * (v % m)) % m
  {
    var r := u % m;
    ModMulLeft(u, v, m);
    ModMulLeft(v, r, m);
    assert v * r == r * v;
    assert (v % m) * r == r * (v % m);
  }

  lemma ModMulCongruent(u: int, u': int, v: int, v': int, m: int)
    requires m > 0 && u % m == u' % m && v % m == v' % m
    ensures (u * v) % m == (u' * v') % m
  {
    ModMul(u, v, m);
    ModMul(u', v', m);
  }

  lemma ModOfMod(x: int, m: int)
    requires m > 0
    ensures (x % m) % m == x % m
  {
    DivModUnique(x % m, m, 0, x % m);
  }

  // ---------------------------------------------------------------------
  // Divisibility

  lemma DividesWitness(d: nat, x: int)
    requires d > 0 && Divides(d, x)
    ensures x == d * (x / d)
  {
  }

  /** A common divisor of `a` and `b` divides every integer combination of them. */
  lemma DividesLinear(d: nat, a: int, b: int, s: int, t: int)
    requires Divides(d, a) && Divides(d, b)
    ensures Divides(d, a * s + b * t)
  {
    if d > 0 {
      var ka, kb := a / d, b / d;
      assert a * s + b * t == d * (ka * s + kb * t) by {
        DividesWitness(d, a);
        DividesWitness(d, b);
      }
      DivModUnique(a * s + b * t, d, ka * s + kb * t, 0);
    }
  }

  lemma DividesReflexive(d: nat)
    ensures Divides(d, d) && Divides(d, 0)
  {
    if d > 0 {
      DivModUnique(d, d, 1, 0);
      DivModUnique(0, d, 0, 0);
    }
  }

  lemma DividesOne(x: int)
    ensures Divides(1, x)
  {
    DivModUnique(x, 1, x, 0);
  }

  /** A positive multiple of `d` is at least `d`. */
  lemma DividesBound(d: nat, x: nat)
    requires Divides(d, x) && x > 0
    ensures 1 <= d <= x
  {
    DividesWitness(d, x);
    var k := x / d;
    assert k >= 1;
    MulAtLeastFactor(d, k);
  }

  lemma DividesAntisymmetric(d: nat, x: nat)
    requires Divides(d, x) && Divides(x, d)
    ensures d == x
  {
    if x > 0 && d > 0 {
      DividesBound(d, x);
      DividesBound(x, d);
    }
  }

  /** The only natural number dividing 1 is 1. */
  lemma DividesUnit(d: nat)
    requires Divides(d, 1)
    ensures d == 1
  {
    DividesBound(d, 1);
  }

  lemma GcdUnique(g1: nat, g2: nat, a: nat, b: nat)
    requires IsGcd(g1, a, b) && IsGcd(g2, a, b)
    ensures g1 == g2
  {
    DividesAntisymmetric(g1, g2);
  }

  /** One Euclidean step `(a, b) ~> (b, a % b)` keeps the common divisors. */
  lemma CommonDivisorsStep(a: nat, b: nat)
    requires b > 0
    ensures forall c: nat :: Divides(c, a) && Divides(c, b) <==> Divides(c, b) && Divides(c, a % b)
  {
    forall c: nat
      ensures Divides(c, a) && Divides(c, b) <==> Divides(c, b) && Divides(c, a % b)
    {
      assert a % b == a * 1 + b * -(a / b);
      assert a == (a % b) * 1 + b * (a / b);
      if Divides(c, a) && Divides(c, b) {
        DividesLinear(c, a, b, 1, -(a / b));
      }
      if Divides(c, b) && Divides(c, a % b) {
        DividesLinear(c, a % b, b, 1, a / b);
      }
    }
  }

  /** The gcd of `a` and `b` is the gcd of `b % a` and `a`. */
  lemma GcdStep(g: nat, a: nat, b: nat)
    requires a > 0 && IsGcd(g, b % a, a)
    ensures IsGcd(g, a, b)
  {
    CommonDivisorsStep(b, a);
  }

  /** No common divisor of `a` and `b` exceeds a positive gcd of theirs. */
  lemma GcdIsGreatest(g: nat, a: nat, b: nat, c: nat)
    requires IsGcd(g, a, b) && g > 0
    requires Divides(c, a) && Divides(c, b)
    ensures c <= g
  {
    DividesBound(c, g);
  }

  lemma GcdOfZero(b: nat)
    ensures IsGcd(b, 0, b)
  {
    DividesReflexive(b);
  }

  // ---------------------------------------------------------------------
  // Powers

  lemma {:induction false} PowAdd(a: nat, i: nat, j: nat)
    ensures Pow(a, i + j) == Pow(a, i) * Pow(a, j)
    decreases i
  {
    if i > 0 {
      PowAdd(a, i - 1, j);
    }
  }

  lemma {:induction false} PowSquare(a: nat, k: nat)
    ensures Pow(a * a, k) == Pow(a, 2 * k)
    decreases k
  {
    if k > 0 {
      PowSquare(a, k - 1);
      PowAdd(a, 2, 2 * (k - 1));
    }
  }

  /** Raising to a power is compatible with congruence modulo `m`. */
  lemma {:induction false} PowCongruent(a: nat, k: nat, m: nat)
    requires m > 0
    ensures Pow(a % m, k) % m == Pow(a, k) % m
    decreases k
  {
    if k > 0 {
      PowCongruent(a, k - 1, m);
      ModOfMod(a, m);
      ModMulCongruent(a % m, a, Pow(a % m, k - 1), Pow(a, k - 1), m);
      assert Pow(a % m, k) == (a % m) * Pow(a % m, k - 1);
      assert Pow(a, k) == a * Pow(a, k - 1);
    }
  }

  /** A power of a power multiplies the exponents. */
  lemma {:induction false} PowMul(a: nat, i: nat, j: nat)
    ensures Pow(Pow(a, i), j) == Pow(a, i * j)
    decreases j
  {
    if j > 0 {
      PowMul(a, i, j - 1);
      assert i * j == i + i * (j - 1);
      PowAdd(a, i, i * (j - 1));
    }
  }

  /** A positive power of zero is zero. */
  lemma PowZero(k: nat)
    requires k > 0
    ensures Pow(0, k) == 0
  {
  }
}
