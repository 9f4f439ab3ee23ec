/**
 * The modular-arithmetic routines of rsa.cpp: the iterative Euclidean gcd,
 * the recursive extended Euclid, the modular inverse built on it, and the
 * square-and-multiply exponentiation `ApowBmodN` with its reduce-only-when-
 * strictly-greater quirk.
 *
 * Values are mathematical naturals; the source's 64-bit unsigned wrap-around
 * is not modelled (see README).
 */
module ModularArithmetic {
  import opened NumberTheory

  // ---------------------------------------------------------------------
  // gcd (rsa.cpp:46-57)

  /** Iterative Euclid. The source computes `a % b` before its loop, so a zero
      `b` is a division by zero there: callers must pass `b != 0`. */
  method Gcd(a: nat, b: nat) returns (g: nat)
    requires b != 0
    ensures IsGcd(g, a, b)
    ensures g > 0
    ensures a == 0 ==> g == b
  {
    var r := a % b;
    var x: nat, y: nat := a, b;
    while y != 0
      invariant x != 0 || y != 0
      invariant forall c: nat :: Divides(c, x) && Divides(c, y) <==> Divides(c, a) && Divides(c, b)
      decreases y
    {
      CommonDivisorsStep(x, y);
      r := y;
      y := x % r;
      x := r;
    }
    DividesReflexive(x);
    g := x;
    if a == 0 {
      GcdOfZero(b);
      GcdUnique(g, b, 0, b);
    }
  }

  // ---------------------------------------------------------------------
  // extendedEuclid (rsa.cpp:79-84)

  /** The source's nested pair `(g, (x, y))`. */
  datatype Bezout = Bezout(g: nat, x: int, y: int)

  /** `v`, or 1 when `v` is zero: the bound on Bezout coefficients. */
  function AtLeastOne(v: nat): int {
    if v == 0 then 1 else v
  }

  /** Recursive extended Euclid: the gcd of `a` and `b` together with
      coefficients of Bezout's identity, each no larger in size than the
      other argument. The first argument strictly decreases (`b % a < a`). */
  function ExtendedEuclid(a: nat, b: nat): (r: Bezout)
    ensures a * r.x + b * r.y == r.g
    ensures IsGcd(r.g, a, b)
    ensures -AtLeastOne(b) <= r.x <= AtLeastOne(b)
    ensures -AtLeastOne(a) <= r.y <= AtLeastOne(a)
    decreases a
  {
    if a == 0 then
      GcdOfZero(b);
      Bezout(b, 0, 1)
    else
      var p := ExtendedEuclid(b % a, a);
      GcdStep(p.g, a, b);
      BackSubstitution(a, b, p.g, p.x, p.y);
      CoefficientBound(a, b, p.x, p.y);
      Bezout(p.g, p.y - p.x * (b / a), p.x)
  }

  /** Back-substituting the coefficients of `(b % a, a)` gives coefficients of `(a, b)`. */
  lemma BackSubstitution(a: nat, b: nat, g: nat, x: int, y: int)
    requires a > 0 && (b % a) * x + a * y == g
    ensures a * (y - x * (b / a)) + b * x == g
  {
    var q, r := b / a, b % a;
    assert b * x == a * q * x + r * x by {
      assert b == a * q + r;
    }
    assert a * (y - x * q) == a * y - a * q * x;
  }

  lemma CoefficientBound(a: nat, b: nat, x: int, y: int)
    requires a > 0
    requires -AtLeastOne(a) <= x <= AtLeastOne(a)
    requires -AtLeastOne(b % a) <= y <= AtLeastOne(b % a)
    requires b % a == 0 ==> x == 0 && y == 1
    ensures -AtLeastOne(b) <= y - x * (b / a) <= AtLeastOne(b)
  {
    var q, r := b / a, b % a;
    if r > 0 {
      assert b == a * q + r;
      MulBetween(x, a, q);
    }
  }

  lemma MulBetween(x: int, a: nat, q: nat)
    requires -(a as int) <= x <= a
    ensures -(a * q) <= x * q <= a * q
  {
  }

  // ---------------------------------------------------------------------
  // modInverse (rsa.cpp:92-94)

  /** `(x + m) % m` where `x` is the Bezout coefficient of `a`; the coefficient
      is at least `-m`, so the sum is never negative and the source's unsigned
      arithmetic and Dafny's agree on it. For `m > 1` coprime to `a` the result
      is the inverse of `a` modulo `m`. */
  function ModInverse(a: nat, m: nat): (x: nat)
    requires m > 0
    ensures x < m
    ensures m > 1 && Coprime(a, m) ==> (a * x) % m == 1
  {
    var t := ExtendedEuclid(a, m);
    InverseFromBezout(a, m, t);
    (t.x + m) % m
  }

  lemma InverseFromBezout(a: nat, m: nat, t: Bezout)
    requires m > 0 && a * t.x + m * t.y == t.g && IsGcd(t.g, a, m)
    ensures m > 1 && Coprime(a, m) ==> (a * ((t.x + m) % m)) % m == 1
  {
    if m > 1 && Coprime(a, m) {
      GcdUnique(t.g, 1, a, m);
      NormalisedInverse(a, m, t.x, t.y);
    }
  }

  /** Shifting the Bezout coefficient into `[0, m)` keeps it an inverse. */
  lemma NormalisedInverse(a: nat, m: nat, x: int, y: int)
    requires m > 1 && a * x + m * y == 1
    ensures (a * ((x + m) % m)) % m == 1
  {
    var u := x + m;
    ModOfMod(u, m);
    ModMulCongruent(a, a, u % m, u, m);
    ShiftByMultiple(a, x, m);
    ModAddMultiple(1, -y, m);
    assert a * x == 1 + m * -y;
    DivModUnique(1, m, 0, 1);
  }

  lemma ShiftByMultiple(a: nat, x: int, m: nat)
    requires m > 0
    ensures (a * (x + m)) % m == (a * x) % m
  {
    assert a * (x + m) == a * x + m * a;
    ModAddMultiple(a * x, a, m);
  }

  /** `a` has an inverse modulo `m > 1` exactly when the two are coprime, and
      then `ModInverse` finds it. */
  lemma {:induction false} ModInverseIffCoprime(a: nat, m: nat)
    requires m > 1
    ensures (a * ModInverse(a, m)) % m == 1 <==> Coprime(a, m)
  {
    var x := ModInverse(a, m);
    if (a * x) % m == 1 {
      InverseImpliesCoprime(a, m, x);
    }
  }

  /** Any common divisor of `a` and `m` divides `a * x - m * k == 1`. */
  lemma InverseImpliesCoprime(a: nat, m: nat, x: int)
    requires m > 1 && (a * x) % m == 1
    ensures Coprime(a, m)
  {
    var ax := a * x;
    var k := ax / m;
    assert ax == m * k + 1;
    DividesOne(a);
    DividesOne(m);
    forall c: nat | Divides(c, a) && Divides(c, m)
      ensures Divides(c, 1)
    {
      DividesLinear(c, a, m, x, -k);
    }
  }

  // ---------------------------------------------------------------------
  // ApowBmodN (rsa.cpp:101-116)

  /** The source reduces a product only when it is strictly greater than the
      modulus, so a product equal to the modulus is kept as it is. */
  function Reduce(v: nat, m: nat): (r: nat)
    requires m > 0
    ensures r % m == v % m
    ensures r <= m
    ensures r == m <==> v == m
  {
    if v > m then v % m else v
  }

  /** The value that square-and-multiply reaches from accumulator `x`, running
      square `y` and remaining exponent `b`. */
  function SquareAndMultiply(x: nat, y: nat, b: nat, m: nat): nat
    requires m > 0
    decreases b
  {
    if b == 0 then x
    else SquareAndMultiply(if b % 2 == 1 then Reduce(x * y, m) else x, Reduce(y * y, m), b / 2, m)
  }

  /** One round of the loop keeps `x * y^b` modulo `m`. */
  lemma SquareAndMultiplyStep(x: nat, y: nat, b: nat, m: nat)
    requires m > 0 && b > 0
    ensures var x' := if b % 2 == 1 then Reduce(x * y, m) else x;
            (x' * Pow(Reduce(y * y, m), b / 2)) % m == (x * Pow(y, b)) % m
  {
    var h := b / 2;
    var y' := Reduce(y * y, m);
    var p', p := Pow(y', h), Pow(y, 2 * h);
    assert p' % m == p % m by {
      PowCongruent(y', h, m);
      PowCongruent(y * y, h, m);
      PowSquare(y, h);
    }
    if b % 2 == 1 {
      assert Pow(y, b) == y * p by {
        assert b == 2 * h + 1;
      }
      var xy := x * y;
      assert x * Pow(y, b) == xy * p;
      ModMulCongruent(Reduce(xy, m), xy, p', p, m);
    } else {
      assert b == 2 * h;
      ModMulCongruent(x, x, p', p, m);
    }
  }

  /** Square-and-multiply computes `x * y^b` modulo `m`, up to the quirk that
      the representative may be `m` rather than `0`. */
  lemma {:induction false} SquareAndMultiplyCongruent(x: nat, y: nat, b: nat, m: nat)
    requires m > 0
    ensures SquareAndMultiply(x, y, b, m) % m == (x * Pow(y, b)) % m
    ensures x <= m ==> SquareAndMultiply(x, y, b, m) <= m
    decreases b
  {
    if b > 0 {
      var x' := if b % 2 == 1 then Reduce(x * y, m) else x;
      SquareAndMultiplyCongruent(x', Reduce(y * y, m), b / 2, m);
      SquareAndMultiplyStep(x, y, b, m);
    }
  }

  /** Modular exponentiation by square-and-multiply (rsa.cpp:101-116). The
      result is congruent to `a^b` modulo `modulus` and at most `modulus`:
      it equals `modulus` itself when a product lands exactly on it. */
  method ApowBmodN(a: nat, b: nat, modulus: nat) returns (r: nat)
    requires modulus > 0
    ensures r % modulus == Pow(a, b) % modulus
    ensures r <= modulus
    ensures b == 0 ==> r == 1
    ensures r == SquareAndMultiply(1, a, b, modulus)
  {
    var x: nat, y: nat, e: nat := 1, a, b;
    while e > 0
      invariant x <= modulus
      invariant SquareAndMultiply(x, y, e, modulus) == SquareAndMultiply(1, a, b, modulus)
      invariant (x * Pow(y, e)) % modulus == Pow(a, b) % modulus
    {
      SquareAndMultiplyStep(x, y, e, modulus);
      if e % 2 == 1 {
        x := x * y;
        if x > modulus {
          x := x % modulus;
        }
      }
      y := y * y;
      if y > modulus {
        y := y % modulus;
      }
      e := e / 2;
    }
    r := x;
  }

  /** The result of square-and-multiply is the least residue of `a^b`, except
      that a zero residue may come out as the modulus itself. */
  lemma ModPowResidue(a: nat, b: nat, m: nat)
    requires m > 0
    ensures var r := SquareAndMultiply(1, a, b, m);
            r == Pow(a, b) % m || (r == m && Pow(a, b) % m == 0)
  {
    SquareAndMultiplyCongruent(1, a, b, m);
    var r := SquareAndMultiply(1, a, b, m);
    if r < m {
      DivModUnique(r, m, 0, r);
    } else {
      DivModUnique(r, m, 1, 0);
    }
  }

  /** Once the running square is zero, a positive remaining exponent drives
      the accumulator to zero. */
  lemma {:induction false} SquareAndMultiplyOfZero(x: nat, b: nat, m: nat)
    requires m > 0 && b > 0
    ensures SquareAndMultiply(x, 0, b, m) == 0
    decreases b
  {
    if b % 2 == 0 {
      SquareAndMultiplyOfZero(x, b / 2, m);
    } else if b / 2 > 0 {
      SquareAndMultiplyOfZero(0, b / 2, m);
    }
  }

  /** `ApowBmodN(5, 3, 13) == 8`. */
  lemma ModPowExample()
    ensures SquareAndMultiply(1, 5, 3, 13) == 8
  {
  }

  /** The quirk: `ApowBmodN(13, 1, 13) == 13`, not 0. */
  lemma ModPowCanReturnModulus()
    ensures SquareAndMultiply(1, 13, 1, 13) == 13
  {
  }
}
