/**
 * The facts about primes that make RSA decryption undo encryption: Euclid's
 * lemma, the binomial theorem, Fermat's little theorem and the Chinese
 * remainder step for two distinct primes.
 */
module Primes {
  import opened NumberTheory
  import opened ModularArithmetic

  // ---------------------------------------------------------------------
  // Divisors of a prime and Euclid's lemma

  /** The only divisors of a prime are 1 and the prime itself. */
  lemma PrimeDivisors(p: nat, d: nat)
    requires IsPrime(p) && Divides(d, p)
    ensures d == 1 || d == p
  {
    DividesBound(d, p);
  }

  /** A prime that does not divide `a` is coprime to it. */
  lemma PrimeCoprime(p: nat, a: nat)
    requires IsPrime(p) && !Divides(p, a)
    ensures Coprime(p, a)
  {
    DividesOne(p);
    DividesOne(a);
    forall c: nat | Divides(c, p) && Divides(c, a)
      ensures Divides(c, 1)
    {
      PrimeDivisors(p, c);
      DividesOne(1);
    }
  }

  /** `d` divides every multiple of itself. */
  lemma DividesMultiple(d: nat, t: int)
    ensures Divides(d, d * t)
  {
    if d > 0 {
      DivModUnique(d * t, d, t, 0);
    }
  }

  /** Euclid's lemma: a prime dividing a product divides one of its factors. */
  lemma EuclidLemma(p: nat, a: nat, b: int)
    requires IsPrime(p) && Divides(p, a * b)
    ensures Divides(p, a) || Divides(p, b)
  {
    if !Divides(p, a) {
      PrimeCoprime(p, a);
      var t := ExtendedEuclid(p, a);
      GcdUnique(t.g, 1, p, a);
      assert b == p * (t.x * b) + (a * b) * t.y by {
        assert b == (p * t.x + a * t.y) * b;
      }
      DividesMultiple(p, 1);
      DividesLinear(p, p, a * b, t.x * b, t.y);
    }
  }

  /** Two distinct primes are coprime to each other's multiples: if both
      divide `x`, so does their product. */
  lemma DistinctPrimesDivide(p: nat, q: nat, x: int)
    requires IsPrime(p) && IsPrime(q) && p != q
    requires Divides(p, x) && Divides(q, x)
    ensures Divides(p * q, x)
  {
    var t := x / p;
    DividesWitness(p, x);
    EuclidLemma(q, p, t);
    if Divides(q, p) {
      PrimeDivisors(p, q);
      assert false;
    }
    var s := t / q;
    DividesWitness(q, t);
    assert x == (p * q) * s;
    DividesMultiple(p * q, s);
  }

  /** Congruence modulo `m` is divisibility of the difference by `m`. */
  lemma CongruentIffDivides(x: int, y: int, m: nat)
    requires m > 0
    ensures x % m == y % m <==> Divides(m, x - y)
  {
    var qx, qy := x / m, y / m;
    var rx, ry := x % m, y % m;
    assert x - y == m * (qx - qy) + (rx - ry);
    if rx == ry {
      DivModUnique(x - y, m, qx - qy, 0);
    } else if rx > ry {
      DivModUnique(x - y, m, qx - qy, rx - ry);
    } else {
      assert x - y == m * (qx - qy - 1) + (m + rx - ry);
      DivModUnique(x - y, m, qx - qy - 1, m + rx - ry);
    }
  }

  /** Chinese remainder step: congruence modulo two distinct primes is
      congruence modulo their product. */
  lemma CongruentModProduct(x: int, y: int, p: nat, q: nat)
    requires IsPrime(p) && IsPrime(q) && p != q
    requires x % p == y % p && x % q == y % q
    ensures x % (p * q) == y % (p * q)
  {
    CongruentIffDivides(x, y, p);
    CongruentIffDivides(x, y, q);
    DistinctPrimesDivide(p, q, x - y);
    MulAtLeastFactor(p, q);
    CongruentIffDivides(x, y, p * q);
  }

  // ---------------------------------------------------------------------
  // Binomial coefficients

  /** Pascal's triangle. */
  function Binom(n: nat, k: nat): nat {
    if k == 0 then 1
    else if n == 0 then 0
    else Binom(n - 1, k - 1) + Binom(n - 1, k)
  }

  lemma {:induction false} BinomAbove(n: nat, k: nat)
    requires k > n
    ensures Binom(n, k) == 0
    decreases n
  {
    if n > 0 {
      BinomAbove(n - 1, k - 1);
      BinomAbove(n - 1, k);
    }
  }

  lemma {:induction false} BinomDiagonal(n: nat)
    ensures Binom(n, n) == 1
    decreases n
  {
    if n > 0 {
      BinomDiagonal(n - 1);
      BinomAbove(n - 1, n);
    }
  }

  lemma {:induction false} BinomOne(n: nat)
    ensures Binom(n, 1) == n
    decreases n
  {
    if n > 0 {
      BinomOne(n - 1);
    }
  }

  /** The absorption identity `k * C(n, k) == n * C(n - 1, k - 1)`. */
  lemma {:induction false} Absorption(n: nat, k: nat)
    requires n >= 1 && k >= 1
    ensures k * Binom(n, k) == n * Binom(n - 1, k - 1)
    decreases n
  {
    if k == 1 {
      BinomOne(n);
    } else if n == 1 {
      BinomAbove(0, k - 1);
      BinomAbove(0, k);
    } else {
      Absorption(n - 1, k);
      Absorption(n - 1, k - 1);
      AbsorptionArithmetic(n, k, Binom(n - 2, k - 2), Binom(n - 2, k - 1),
        Binom(n - 1, k - 1), Binom(n - 1, k), Binom(n, k));
    }
  }

  /** The arithmetic of the absorption step, with the coefficients named. */
  lemma AbsorptionArithmetic(n: nat, k: nat, a: nat, b: nat, c: nat, d: nat, e: nat)
    requires n >= 2 && k >= 2
    requires c == a + b && e == c + d
    requires k * d == (n - 1) * b && (k - 1) * c == (n - 1) * a
    ensures k * e == n * c
  {
    assert k * e == (k - 1) * c + c + k * d;
    assert (n - 1) * a + (n - 1) * b == (n - 1) * c;
  }

  /** A prime divides every binomial coefficient of its own row except the
      two ends. */
  lemma PrimeDividesBinom(p: nat, k: nat)
    requires IsPrime(p) && 0 < k < p
    ensures Divides(p, Binom(p, k))
  {
    Absorption(p, k);
    DividesMultiple(p, Binom(p - 1, k - 1));
    EuclidLemma(p, k, Binom(p, k));
    if Divides(p, k) {
      DividesBound(p, k);
    }
  }

  // ---------------------------------------------------------------------
  // The binomial theorem for (a + 1)^n

  /** The partial sum `C(n, 0) + C(n, 1) * a + ... + C(n, j) * a^j`. */
  function BinomSum(n: nat, a: nat, j: nat): nat
    decreases j
  {
    Binom(n, j) * Pow(a, j) + (if j == 0 then 0 else BinomSum(n, a, j - 1))
  }

  /** Pascal's rule, summed. */
  lemma {:induction false} BinomSumStep(n: nat, a: nat, j: nat)
    requires j >= 1
    ensures BinomSum(n + 1, a, j) == BinomSum(n, a, j) + a * BinomSum(n, a, j - 1)
    decreases j
  {
    if j > 1 {
      BinomSumStep(n, a, j - 1);
    }
    var v := if j == 1 then 0 else BinomSum(n, a, j - 2);
    PascalSumArithmetic(a, Binom(n, j - 1), Binom(n, j), Pow(a, j), Pow(a, j - 1),
      BinomSum(n + 1, a, j), BinomSum(n + 1, a, j - 1), BinomSum(n, a, j - 1), v, BinomSum(n, a, j));
  }

  /** The arithmetic of one step of Pascal's rule summed, with the terms named. */
  lemma PascalSumArithmetic(a: nat, b1: nat, b2: nat, aj: nat, pj: nat, s1: nat, t: nat, u: nat, v: nat, w: nat)
    requires aj == a * pj
    requires s1 == (b1 + b2) * aj + t && t == u + a * v
    requires u == b1 * pj + v && w == b2 * aj + u
    ensures s1 == w + a * u
  {
    assert (b1 + b2) * aj == b1 * aj + b2 * aj;
    assert b1 * aj == a * (b1 * pj);
    assert a * u == a * (b1 * pj) + a * v;
  }

  /** `(a + 1)^n` is the full sum of its binomial terms. */
  lemma {:induction false} BinomialTheorem(a: nat, n: nat)
    ensures Pow(a + 1, n) == BinomSum(n, a, n)
    decreases n
  {
    if n > 0 {
      BinomialTheorem(a, n - 1);
      BinomSumStep(n - 1, a, n);
      BinomAbove(n - 1, n);
      var s := BinomSum(n - 1, a, n - 1);
      assert BinomSum(n - 1, a, n) == s;
      assert Pow(a + 1, n) == (a + 1) * s;
      assert (a + 1) * s == s + a * s;
    }
  }

  /** Modulo a prime, the inner terms of row `p` vanish. */
  lemma {:induction false} InnerTermsVanish(p: nat, a: nat, j: nat)
    requires IsPrime(p) && j < p
    ensures BinomSum(p, a, j) % p == 1
    decreases j
  {
    if j == 0 {
      DivModUnique(1, p, 0, 1);
    } else {
      InnerTermsVanish(p, a, j - 1);
      PrimeDividesBinom(p, j);
      var b, t, aj := Binom(p, j), Binom(p, j) / p, Pow(a, j);
      DividesWitness(p, b);
      assert b * aj == p * (t * aj) by {
        assert b == p * t;
      }
      ModAddMultiple(BinomSum(p, a, j - 1), t * aj, p);
    }
  }

  /** The "freshman's dream" modulo a prime: `(a + 1)^p == a^p + 1`. */
  lemma FreshmansDream(p: nat, a: nat)
    requires IsPrime(p)
    ensures Pow(a + 1, p) % p == (Pow(a, p) + 1) % p
  {
    BinomialTheorem(a, p);
    BinomDiagonal(p);
    InnerTermsVanish(p, a, p - 1);
    var s := BinomSum(p, a, p - 1);
    assert BinomSum(p, a, p) == Pow(a, p) + s;
    DivModUnique(1, p, 0, 1);
    ModAddCongruent(Pow(a, p), s, 1, p);
  }

  /** Adding the same value keeps a congruence. */
  lemma ModAddCongruent(x: int, y: int, z: int, m: nat)
    requires m > 0 && y % m == z % m
    ensures (x + y) % m == (x + z) % m
  {
    CongruentIffDivides(x + y, x + z, m);
    CongruentIffDivides(y, z, m);
  }

  /** Fermat's little theorem: `a^p == a` modulo a prime `p`. */
  lemma {:induction false} FermatLittle(p: nat, a: nat)
    requires IsPrime(p)
    ensures Pow(a, p) % p == a % p
    decreases a
  {
    if a == 0 {
      PowZero(p);
    } else {
      FermatLittle(p, a - 1);
      FreshmansDream(p, a - 1);
      ModAddCongruent(1, Pow(a - 1, p), a - 1, p);
    }
  }

  /** Raising to `1 + k * (p - 1)` is the identity modulo a prime `p`. */
  lemma {:induction false} FermatPower(p: nat, m: nat, k: nat)
    requires IsPrime(p)
    ensures Pow(m, 1 + k * (p - 1)) % p == m % p
    decreases k
  {
    if k == 0 {
      assert Pow(m, 1) == m;
    } else {
      var e := 1 + (k - 1) * (p - 1);
      FermatPower(p, m, k - 1);
      assert 1 + k * (p - 1) == e + (p - 1);
      PowAdd(m, e, p - 1);
      ModMulCongruent(Pow(m, e), m, Pow(m, p - 1), Pow(m, p - 1), p);
      assert Pow(m, p) == m * Pow(m, p - 1);
      FermatLittle(p, m);
    }
  }

  /** The RSA identity: for distinct primes `p`, `q` and an exponent `x` that
      is 1 modulo `(p - 1) * (q - 1)`, `m^x == m` modulo `p * q`. */
  lemma RsaExponent(p: nat, q: nat, m: nat, x: nat)
    requires IsPrime(p) && IsPrime(q) && p != q
    requires x % ((p - 1) * (q - 1)) == 1
    ensures Pow(m, x) % (p * q) == m % (p * q)
  {
    var kp, kq := ExponentSplit(x, p, q);
    FermatPower(p, m, kq);
    FermatPower(q, m, kp);
    CongruentModProduct(Pow(m, x), m, p, q);
  }

  /** An exponent that is 1 modulo `(p - 1) * (q - 1)` is 1 modulo each factor. */
  lemma ExponentSplit(x: nat, p: nat, q: nat) returns (kp: nat, kq: nat)
    requires p >= 2 && q >= 2 && x % ((p - 1) * (q - 1)) == 1
    ensures x == 1 + kq * (p - 1) && x == 1 + kp * (q - 1)
  {
    var a, b := p - 1, q - 1;
    var phi := a * b;
    var k := x / phi;
    kp, kq := k * a, k * b;
    assert x == phi * k + 1;
    assert phi * k == kq * a by {
      assert (a * b) * k == (k * b) * a;
    }
    assert phi * k == kp * b by {
      assert (a * b) * k == (k * a) * b;
    }
  }
}
