/**
 * The message loops of rsa.cpp's `main` (lines 207-222): every character of
 * the message is encrypted on its own with `ApowBmodN(m, e, n)` into `enc`,
 * and every entry of `enc` decrypted with `ApowBmodN(c, d, n)` into `dec`.
 * Here also the round-trip theorem of textbook RSA for the keys the
 * generator produces.
 */
module Cipher {
  import opened Wrappers
  import opened NumberTheory
  import opened ModularArithmetic
  import opened Primes
  import opened KeyGenerator

  /** A character of the message, read as an unsigned byte. */
  type Byte = b: nat | b < 256

  /** The encryption loop (rsa.cpp:207-209): the first `size` entries of `enc`
      are the encrypted characters, one position at a time; no other entry of
      `enc` is written. */
  method Encrypt(buffer: array<Byte>, size: nat, e: nat, n: nat, enc: array<nat>)
    requires n > 0
    requires size <= buffer.Length && size <= enc.Length
    modifies enc
    ensures forall i :: 0 <= i < size ==> enc[i] == SquareAndMultiply(1, buffer[i], e, n)
    ensures forall i :: size <= i < enc.Length ==> enc[i] == old(enc[i])
  {
    var i := 0;
    while i < size
      invariant i <= size
      invariant forall j :: 0 <= j < i ==> enc[j] == SquareAndMultiply(1, buffer[j], e, n)
      invariant forall j :: i <= j < enc.Length ==> enc[j] == old(enc[j])
    {
      enc[i] := ApowBmodN(buffer[i], e, n);
      i := i + 1;
    }
  }

  /** The decryption loop (rsa.cpp:220-222), reading `enc` and writing the
      first `size` entries of `dec`, a different array. */
  method Decrypt(enc: array<nat>, size: nat, d: nat, n: nat, dec: array<nat>)
    requires n > 0 && enc != dec
    requires size <= enc.Length && size <= dec.Length
    modifies dec
    ensures forall i :: 0 <= i < size ==> dec[i] == SquareAndMultiply(1, enc[i], d, n)
    ensures forall i :: size <= i < dec.Length ==> dec[i] == old(dec[i])
  {
    var i := 0;
    while i < size
      invariant i <= size
      invariant forall j :: 0 <= j < i ==> dec[j] == SquareAndMultiply(1, enc[j], d, n)
      invariant forall j :: i <= j < dec.Length ==> dec[j] == old(dec[j])
    {
      dec[i] := ApowBmodN(enc[i], d, n);
      i := i + 1;
    }
  }

  // ---------------------------------------------------------------------
  // Round trip

  /** Decrypting the encryption of `m` with exponents `e` and `d`. */
  function RoundTrip(m: nat, e: nat, d: nat, n: nat): nat
    requires n > 0
  {
    SquareAndMultiply(1, SquareAndMultiply(1, m, e, n), d, n)
  }

  /** Whatever the key, the round trip raises `m` to `e * d` modulo `n`. */
  lemma RoundTripPower(m: nat, e: nat, d: nat, n: nat)
    requires n > 0
    ensures RoundTrip(m, e, d, n) % n == Pow(m, e * d) % n
    ensures RoundTrip(m, e, d, n) <= n
  {
    var c := SquareAndMultiply(1, m, e, n);
    SquareAndMultiplyCongruent(1, m, e, n);
    SquareAndMultiplyCongruent(1, c, d, n);
    PowCongruent(c, d, n);
    PowCongruent(Pow(m, e), d, n);
    PowMul(m, e, d);
  }

  /** For a key built from two distinct primes that passes the inverse check,
      decryption undoes encryption for every value modulo `n`. */
  lemma RoundTripModN(k: Key, p: nat, q: nat, m: nat)
    requires KeyFromPrimes(k, p, q) && p != q && PassesInverseCheck(k)
    ensures RoundTrip(m, k.e, k.d, k.n) % k.n == m % k.n
  {
    MulAtLeastFactor(p, q);
    RoundTripPower(m, k.e, k.d, k.n);
    RsaExponent(p, q, m, k.e * k.d);
  }

  /** Textbook RSA is correct: for such a key every `m < n` comes back
      unchanged, zero included. */
  lemma RsaRoundTrip(k: Key, p: nat, q: nat, m: nat)
    requires KeyFromPrimes(k, p, q) && p != q && PassesInverseCheck(k)
    requires m < k.n
    ensures RoundTrip(m, k.e, k.d, k.n) == m
  {
    var n := k.n;
    MulAtLeastFactor(p, q);
    RoundTripModN(k, p, q, m);
    RoundTripPower(m, k.e, k.d, n);
    var r := RoundTrip(m, k.e, k.d, n);
    DivModUnique(m, n, 0, m);
    if m == 0 {
      SquareAndMultiplyOfZero(1, k.e, n);
      SquareAndMultiplyOfZero(1, k.d, n);
    } else if r == n {
      DivModUnique(r, n, 1, 0);
    } else {
      DivModUnique(r, n, 0, r);
    }
  }

  /** Every key from two distinct primes that passes the inverse check also
      passes the round-trip self-test of `TEST_NUM`: the self-test rejects
      only keys with `p == q`. */
  lemma DistinctPrimesPassRoundTrip(k: Key, p: nat, q: nat)
    requires KeyFromPrimes(k, p, q) && p != q && PassesInverseCheck(k)
    ensures PassesRoundTrip(k)
  {
    if p == 2 {
      MulAtLeastFactor(2, q - 2);
    } else {
      MulAtLeastFactor(p, q - 1);
    }
    RsaRoundTrip(k, p, q, TEST_NUM);
  }

  /** The two loops of `main` in sequence. The first `size` entries of `enc`
      are the encrypted characters, and entries from `size` on, in both
      arrays, are untouched. For a key from two distinct primes that passes
      the inverse check, and a message whose characters are all below `n`,
      decryption gives the message back. */
  method EncryptThenDecrypt(buffer: array<Byte>, size: nat, k: Key, ghost p: nat, ghost q: nat,
                            enc: array<nat>, dec: array<nat>)
    requires KeyFromPrimes(k, p, q) && p != q && PassesInverseCheck(k)
    requires size <= buffer.Length && size <= enc.Length && size <= dec.Length && enc != dec
    requires forall i :: 0 <= i < size ==> buffer[i] < k.n
    modifies enc, dec
    ensures forall i :: 0 <= i < size ==> enc[i] == SquareAndMultiply(1, buffer[i], k.e, k.n)
    ensures forall i :: 0 <= i < size ==> dec[i] == buffer[i]
    ensures forall i :: size <= i < enc.Length ==> enc[i] == old(enc[i])
    ensures forall i :: size <= i < dec.Length ==> dec[i] == old(dec[i])
  {
    MulAtLeastFactor(p, q);
    Encrypt(buffer, size, k.e, k.n, enc);
    Decrypt(enc, size, k.d, k.n, dec);
    forall i | 0 <= i < size
      ensures dec[i] == buffer[i]
    {
      RsaRoundTrip(k, p, q, buffer[i]);
    }
  }

  /** With unbounded integers, the generator's retry can reject an attempt
      only when both primes drawn are the same: keys from distinct primes
      pass both self-checks. */
  lemma SelfChecksRejectOnlyEqualPrimes(k: Key, p: nat, q: nat)
    requires KeyFromPrimes(k, p, q) && k.d == ModInverse(k.e, k.phi)
    requires !PassesInverseCheck(k) || !PassesRoundTrip(k)
    ensures p == q
  {
    InverseCheckFailsOnlyForUnitTotient(k, p, q);
    if p != q {
      DistinctPrimesPassRoundTrip(k, p, q);
    }
  }

  // ---------------------------------------------------------------------
  // Keys from equal primes

  /** With `p == q` the value `n - p - q + 1` is `(p - 1)^2`, not the totient
      `p * (p - 1)` of `p^2`. Whenever `e * d >= 2`, the message `p`, which
      is below `n`, does not come back: its round trip is a multiple of
      `p^2`. */
  lemma EqualPrimesLoseMessage(k: Key, p: nat)
    requires KeyFromPrimes(k, p, p) && k.e * k.d >= 2
    ensures p < k.n && RoundTrip(p, k.e, k.d, k.n) != p
  {
    var n := k.n;
    MulAtLeastFactor(p, p);
    RoundTripPower(p, k.e, k.d, n);
    PowerOfSquareFactor(p, k.e * k.d);
    if RoundTrip(p, k.e, k.d, n) == p {
      DivModUnique(p, n, 0, p);
    }
  }

  /** A power `x >= 2` of `p` is a multiple of `p * p`. */
  lemma PowerOfSquareFactor(p: nat, x: nat)
    requires p >= 2 && x >= 2
    ensures Pow(p, x) % (p * p) == 0
  {
    var n := p * p;
    PowAdd(p, 2, x - 2);
    assert Pow(p, 2) == n by {
      assert Pow(p, 1) == p;
    }
    ModAddMultiple(0, Pow(p, x - 2), n);
  }

  /** One round of the square-and-multiply loop on concrete values. */
  lemma SquareAndMultiplyRound(x: nat, y: nat, b: nat, m: nat, x': nat, y': nat)
    requires m > 0 && b > 0
    requires x' == (if b % 2 == 1 then Reduce(x * y, m) else x) && y' == Reduce(y * y, m)
    ensures SquareAndMultiply(x, y, b, m) == SquareAndMultiply(x', y', b / 2, m)
  {
  }

  /** The conditional reduction of a product `v == m * q + r` above `m`. */
  lemma ReduceTo(v: nat, m: nat, q: nat, r: nat)
    requires 0 <= r < m < v && v == m * q + r
    ensures Reduce(v, m) == r
  {
    DivModUnique(v, m, q, r);
  }

  /** Modulo 49, 5 raised to 11 is 17. */
  lemma FiveToTheElevenModFortyNine(n: nat)
    requires n == 49
    ensures SquareAndMultiply(1, 5, 11, n) == 17
  {
    ReduceTo(125, n, 2, 27);
    ReduceTo(625, n, 12, 37);
    ReduceTo(1369, n, 27, 46);
    ReduceTo(1242, n, 25, 17);
    ReduceTo(2116, n, 43, 9);
    SquareAndMultiplyRound(1, 5, 11, n, 5, 25);
    SquareAndMultiplyRound(5, 25, 5, n, 27, 37);
    SquareAndMultiplyRound(27, 37, 2, n, 27, 46);
    SquareAndMultiplyRound(27, 46, 1, n, 17, 9);
  }

  /** Modulo 49, 17 raised to 23 is 5. */
  lemma SeventeenToTheTwentyThreeModFortyNine(n: nat)
    requires n == 49
    ensures SquareAndMultiply(1, 17, 23, n) == 5
  {
    ReduceTo(289, n, 5, 44);
    ReduceTo(748, n, 15, 13);
    ReduceTo(1936, n, 39, 25);
    ReduceTo(325, n, 6, 31);
    ReduceTo(625, n, 12, 37);
    ReduceTo(1369, n, 27, 46);
    ReduceTo(1426, n, 29, 5);
    ReduceTo(2116, n, 43, 9);
    SquareAndMultiplyRound(1, 17, 23, n, 17, 44);
    SquareAndMultiplyRound(17, 44, 11, n, 13, 25);
    SquareAndMultiplyRound(13, 25, 5, n, 31, 37);
    SquareAndMultiplyRound(31, 37, 2, n, 31, 46);
    SquareAndMultiplyRound(31, 46, 1, n, 5, 9);
  }

  /** Modulo 49, 42 raised to 11 is 0, and 0 raised to 23 is 0. */
  lemma FortyTwoRoundTripModFortyNine(n: nat)
    requires n == 49
    ensures RoundTrip(42, 11, 23, n) == 0
  {
    SquareAndMultiplyRound(1, 42, 11, n, 42, 0);
    SquareAndMultiplyOfZero(42, 5, n);
    SquareAndMultiplyOfZero(1, 23, n);
  }

  /** `RSA_process` as written draws 7 twice from table `[7]` with draws
      `0, 0, 10` and returns a key that passes both self-checks, under which
      the character 42, below `n = 49`, decrypts to 0. */
  lemma EqualPrimesWitness(table: seq<nat>, draws: seq<nat>)
    requires table == [7] && draws == [0, 0, 10] && PrimeTable(table)
    ensures ProcessOutcome(table, draws, 0, 0) == Outcome(Ok(Key(49, 11, 23, 36)), 3)
    ensures PassesInverseCheck(Key(49, 11, 23, 36)) && PassesRoundTrip(Key(49, 11, 23, 36))
    ensures 42 < 49 && RoundTrip(42, 11, 23, 49) == 0
  {
    EqualPrimesAccepted(table, draws);
    FiveToTheElevenModFortyNine(49);
    SeventeenToTheTwentyThreeModFortyNine(49);
    FortyTwoRoundTripModFortyNine(49);
  }

  /** Every key of the corrected procedure decrypts every `m < n` back to `m`,
      with no assumption about the primes. */
  lemma ValidatedKeysRoundTrip(table: seq<nat>, draws: seq<nat>, at: nat, maxAttempts: nat, m: nat)
    requires PrimeTable(table) && at <= |draws|
    ensures var r := ValidatedOutcome(table, draws, at, maxAttempts);
            r.res.Ok? && m < r.res.value.n ==> RoundTrip(m, r.res.value.e, r.res.value.d, r.res.value.n) == m
  {
    ValidatedKeysPassBothChecks(table, draws, at, maxAttempts);
    var r := ValidatedOutcome(table, draws, at, maxAttempts);
    if r.res.Ok? && m < r.res.value.n {
      var p, q :| p != q && KeyFromPrimes(r.res.value, p, q);
      RsaRoundTrip(r.res.value, p, q, m);
    }
  }

  // ---------------------------------------------------------------------
  // Characters at or above the modulus

  /** The loops apply no range check, and a character `m >= n` comes back
      only congruent to `m` modulo `n`: with primes 2 and 3 (`n = 6`, `φ = 2`, `e = d = 1`) the
      character 7 decrypts to 1. */
  lemma OutOfRangeCharacterWitness()
    ensures KeyFromPrimes(Key(6, 1, 1, 2), 2, 3) && PassesInverseCheck(Key(6, 1, 1, 2))
    ensures RoundTrip(7, 1, 1, 6) == 1
  {
    assert IsPrime(3);
    CandidateEndpoints(2);
  }

  /** Every character of the message is below the modulus. */
  predicate InRange(buffer: seq<Byte>, n: nat) {
    forall i :: 0 <= i < |buffer| ==> buffer[i] < n
  }

  datatype CipherError = MessageOutOfRange

  /** The message loops with the range check of RSAEP (section 5.1.1 of
      RFC 8017): a message with a character at or above `n` is refused before
      anything is written; any other message is encrypted into the first
      `size` entries of `enc` and decrypts to itself, with the entries from
      `size` on untouched. */
  method EncryptThenDecryptChecked(buffer: array<Byte>, size: nat, k: Key, ghost p: nat, ghost q: nat,
                                   enc: array<nat>, dec: array<nat>) returns (r: Result<(), CipherError>)
    requires KeyFromPrimes(k, p, q) && p != q && PassesInverseCheck(k)
    requires size <= buffer.Length && size <= enc.Length && size <= dec.Length && enc != dec
    modifies enc, dec
    ensures r.Err? <==> !InRange(buffer[..size], k.n)
    ensures r.Err? ==> unchanged(enc) && unchanged(dec)
    ensures r.Ok? ==> forall i :: 0 <= i < size ==> enc[i] == SquareAndMultiply(1, buffer[i], k.e, k.n)
    ensures r.Ok? ==> forall i :: 0 <= i < size ==> dec[i] == buffer[i]
    ensures r.Ok? ==> forall i :: size <= i < enc.Length ==> enc[i] == old(enc[i])
    ensures r.Ok? ==> forall i :: size <= i < dec.Length ==> dec[i] == old(dec[i])
  {
    var i := 0;
    while i < size
      invariant i <= size
      invariant InRange(buffer[..i], k.n)
    {
      if buffer[i] >= k.n {
        assert buffer[..size][i] == buffer[i];
        return Err(MessageOutOfRange);
      }
      i := i + 1;
    }
    assert buffer[..size] == buffer[..i];
    EncryptThenDecrypt(buffer, size, k, p, q, enc, dec);
    r := Ok(());
  }
}
