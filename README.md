# Verified model of a textbook RSA engine

This project is a Dafny model of `rsa.cpp`, a one-file textbook RSA
implementation. It covers:

- key generation: two primes drawn from a prime table, the totient, a random
  public exponent coprime to it, and the private exponent as its modular
  inverse;
- the generator's self-checks and retry;
- the character-by-character encryption and decryption loops of `main`.

The model proves the following:

- The number-theoretic contracts of every routine: Euclid's gcd, the extended
  Euclid with Bezout's identity, the modular inverse, and square-and-multiply
  exponentiation, including its reduce-only-above-the-modulus quirk.
- What the generator guarantees about the keys it returns.
- Textbook RSA is correct for keys from distinct primes. For distinct primes
  `p` and `q` and `e * d == 1 (mod (p - 1)(q - 1))`, decrypting the
  encryption of any `m < n` gives `m` back. This uses Fermat's little
  theorem, which is proved from the binomial theorem, and a
  Chinese-remainder step.
- The generator as written does not guarantee distinct primes: it draws the
  two independently and can return a key from `p == q` that passes both of
  its self-checks yet loses some `m < n`. The corrected generator rejects
  such attempts, and every key it returns decrypts every `m < n`.

Files (modules):

- `wrappers.dfy` (`Wrappers`): `Option` and `Result`.
- `number_theory.dfy` (`NumberTheory`): divisibility, gcd as a predicate,
  primes, powers, and congruence lemmas.
- `modular_arithmetic.dfy` (`ModularArithmetic`): `gcd`, `extendedEuclid`,
  `modInverse` and `ApowBmodN`.
- `fermat.dfy` (`Primes`): Euclid's lemma, binomial coefficients, Fermat's
  little theorem, and the RSA exponent identity.
- `key_generator.dfy` (`KeyGenerator`): the prime table, `calculate_e`, one
  generation attempt, `RSA_process` as written, and a corrected variant.
- `cipher.dfy` (`Cipher`): the encryption and decryption loops, the
  round-trip theorem, and the range-checked variant.

Outside collaborators are parameters:

- `rand()` is the sequence `draws` of the values it returns, in order, read
  from a position `at`. Every method that draws also returns the position of
  the first draw it did not consume.
- The prime file is the sequence `table`.
- The recursion of `RSA_process` is bounded by a `retries` count.

All integers are mathematical integers; see "Left out".

## Model

| member | source | states |
|---|---|---|
| `ModularArithmetic.Gcd` | rsa.cpp:46-57 | For `b != 0`, returns a positive common divisor of `a` and `b` that every common divisor divides; returns `b` when `a == 0`. |
| `NumberTheory.CommonDivisorsStep` | rsa.cpp:50-54 | One loop step `(a, b) ~> (b, a % b)` keeps exactly the same common divisors. |
| `NumberTheory.GcdIsGreatest` | rsa.cpp:42-46 | No common divisor exceeds the positive gcd: it is the greatest common divisor. |
| `NumberTheory.GcdUnique` | rsa.cpp:46-57 | The gcd is unique, so the loop's result is the gcd. |
| `KeyGenerator.Candidate` | rsa.cpp:66 | `rand() % φ + 1` lies in `[1, φ]`, both ends included, not the open range the comment claims. |
| `KeyGenerator.FirstCoprimeDraw` | rsa.cpp:65-67 | The position of the first draw, from `at` on, whose candidate is coprime to `φ`; all earlier candidates from `at` on are not; nothing when no draw qualifies. |
| `KeyGenerator.CalculateE` | rsa.cpp:62-72 | The do-while loop returns `e` in `[1, φ]` coprime to `φ`, made from the last draw it used. Every earlier draw was rejected. It agrees with `FirstCoprimeDraw`. When the draws run out it reports that. |
| `KeyGenerator.CandidateEndpoints` | rsa.cpp:66-67 | `e = 1` is always accepted; `e = φ` is accepted exactly when `φ == 1`. |
| `ModularArithmetic.ExtendedEuclid` | rsa.cpp:79-84 | Returns `(g, x, y)` with `a*x + b*y == g`, where `g` is the gcd of `a` and `b`; each coefficient is bounded by the other argument (or 1). The recursion ends because the first argument decreases. |
| `ModularArithmetic.BackSubstitution` | rsa.cpp:83 | The coefficients `(y - x*(b/a), x)` built from those of `(b % a, a)` satisfy Bezout's identity for `(a, b)`. |
| `NumberTheory.GcdStep` | rsa.cpp:82 | The gcd of `(b % a, a)` is the gcd of `(a, b)`. |
| `ModularArithmetic.CoefficientBound` | rsa.cpp:83 | The new coefficient stays within `[-b, b]`, or `[-1, 1]` when `b == 0`, so `x + m` in `modInverse` is never negative. |
| `ModularArithmetic.ModInverse` | rsa.cpp:92-94 | The result lies in `[0, m)`, and for `m > 1` coprime to `a` it is the inverse: `(a * x) % m == 1`. |
| `ModularArithmetic.ModInverseIffCoprime` | rsa.cpp:87-94 | For `m > 1`, `modInverse(a, m)` is an inverse exactly when `a` and `m` are coprime. |
| `ModularArithmetic.Reduce` | rsa.cpp:108 | The conditional reduction keeps the residue and returns a value `<= m`; the result equals `m` exactly when the product does. |
| `ModularArithmetic.SquareAndMultiplyStep` | rsa.cpp:105-113 | One loop round keeps `x * y^b` modulo `MOD`. |
| `ModularArithmetic.SquareAndMultiplyCongruent` | rsa.cpp:105-113 | The loop's final accumulator is congruent to `x * y^b`, and is at most `MOD` when `x` is. |
| `ModularArithmetic.ApowBmodN` | rsa.cpp:101-116 | For `MOD > 0`: the result is congruent to `a^b` modulo `MOD` and is `<= MOD`. For `b == 0` it is 1. It equals the square-and-multiply specification function. |
| `ModularArithmetic.ModPowResidue` | rsa.cpp:101-116 | The result is the least residue of `a^b`, except that a zero residue can come out as `MOD` itself. |
| `ModularArithmetic.SquareAndMultiplyOfZero` | rsa.cpp:105-113 | A zero running square and a positive exponent give a zero result. |
| `ModularArithmetic.ModPowExample` | rsa.cpp:101-116 | `ApowBmodN(5, 3, 13) == 8`. |
| `ModularArithmetic.ModPowCanReturnModulus` | rsa.cpp:107-108 | `ApowBmodN(13, 1, 13) == 13`: the result can equal the modulus. |
| `KeyGenerator.PrimeAt` | rsa.cpp:21-40 | `choose_prime` as a table lookup: the entry at a position, or nothing past the end. |
| `KeyGenerator.TotientOfPrimes` | rsa.cpp:133-135 | `n - p - q + 1 == (p - 1)(q - 1)` for `n = p*q`; it is at least 1, and equals 1 exactly when both primes are 2. |
| `KeyGenerator.DrawnPrimes` | rsa.cpp:129-131 | The two primes of an attempt: the table entry at the first draw modulo `2 * PRIMES_DATASET_LIMIT` and the entry at the second draw modulo `PRIMES_DATASET_LIMIT`. There are none exactly when fewer than two draws remain or an entry is missing. |
| `KeyGenerator.SearchFindsFirstCoprime` | rsa.cpp:62-72 | The exponent search of an attempt stops at the draw `FirstCoprimeDraw` finds and yields `n = p*q`, `φ = (p-1)(q-1)`, that draw's candidate `e` and `d = modInverse(e, φ)`; with no such draw it reports that the draws ran out. |
| `KeyGenerator.SearchKeyFromPrimes` | rsa.cpp:133-139 | A key the exponent search yields for primes `p` and `q` has `n = p*q`, `φ = (p-1)(q-1) >= 1`, `e` in `[1, φ]` coprime to `φ`, and `d < φ`. |
| `KeyGenerator.FirstAttemptKey` | rsa.cpp:125-139 | A key of one attempt is built from two primes of the table, the first from the first `2 * PRIMES_DATASET_LIMIT` entries and the second from the first `PRIMES_DATASET_LIMIT`. |
| `KeyGenerator.FirstAttemptPrimes` | rsa.cpp:129-139 | A key of one attempt is built from exactly the two primes the attempt drew. |
| `KeyGenerator.DeriveKey` | rsa.cpp:133-139 | From primes `p` and `q`: `n = p*q`, `φ = n - p - q + 1`, `e` from `calculate_e` and `d = modInverse(e, φ)`. The result and the position reached agree with the exponent search `SearchExponent`. A key it returns is derived from `p` and `q`; otherwise the draws ran out. |
| `KeyGenerator.DrawKey` | rsa.cpp:125-139 | One attempt: the two primes of `DrawnPrimes`, then the key material `DeriveKey` derives from them. The result and the position reached agree with `FirstAttempt`. A key it returns is built from two table primes, and no attempt fails for lack of retries. |
| `KeyGenerator.FirstAttemptOfPrimes` | rsa.cpp:129-137 | Once both primes are found, the attempt goes on to search for `e` from the draw after the two prime draws. |
| `KeyGenerator.KeyFromTableBounds` | rsa.cpp:133-135 | A generated key has `n > 0` and `φ >= 1`. |
| `KeyGenerator.InverseCheckFailsOnlyForUnitTotient` | rsa.cpp:139-142 | With unbounded integers, the check `(e * d) % φ != 1` fires exactly when both primes are 2. |
| `KeyGenerator.RoundTripTest` | rsa.cpp:146-152 | The self-test encrypts 5 with `e`, decrypts the result with `d`, and passes exactly when 5 comes back. |
| `KeyGenerator.RsaProcess` | rsa.cpp:121-156 | `RSA_process` as written returns exactly `ProcessOutcome`. A failed attempt is reported. An attempt that passes `(e*d) % φ == 1` is returned at once, without the round-trip test. Otherwise the whole procedure runs again on the draws that follow, the round trip of 5 is tested on that run's key, and if the test fails the procedure runs once more and its result is returned. With no retries left the result is an error. Every key returned passes the inverse check. |
| `KeyGenerator.ProcessKeysPassInverseCheck` | rsa.cpp:139-154 | However deep the nested runs go, a key `RSA_process` returns is built from two table primes and passes `(e*d) % φ == 1`. |
| `KeyGenerator.RsaProcessValidated` | rsa.cpp:129-152 | The corrected procedure requires the two primes to differ and runs both self-checks on every attempt. Its result is exactly `ValidatedOutcome`. An attempt with distinct primes that passes both checks is returned. A failed attempt is reported. An attempt whose primes coincide or that fails either check leads to the same procedure on the draws after it, with one attempt fewer. No attempts left gives an error. Every key returned is built from two distinct primes and passes the inverse check and the round trip of 5. |
| `KeyGenerator.ValidatedKeysPassBothChecks` | rsa.cpp:129-152 | Every key of the corrected procedure, after any number of discarded attempts, is built from two distinct table primes and passes both self-checks. |
| `KeyGenerator.RoundTripSkippedWitness` | rsa.cpp:142-154 | With table `[3]` and draws `0, 0, 2`, the first attempt gives `n = 9`, `e = d = 3`, `φ = 4`. It passes the inverse check but fails the round trip of 5. |
| `KeyGenerator.FirstAttemptOfThrees` | rsa.cpp:129-139 | The attempt on table `[3]` with draws `0, 0, 2` yields the key `(9, 3, 3, 4)` after 3 draws. |
| `KeyGenerator.RoundTripSkippedExample` | rsa.cpp:121-156 | `RSA_process` as written returns that key. |
| `KeyGenerator.ValidatedRetriesAfterWitness` | rsa.cpp:142-152 | On the same draws the corrected procedure, allowed two attempts, discards that key and makes a second attempt, which finds the draws exhausted. |
| `KeyGenerator.InverseOfEleven` | rsa.cpp:87-94 | `modInverse(11, 36) == 23`. |
| `KeyGenerator.FirstAttemptOfSevens` | rsa.cpp:129-139 | With table `[7]` and draws `0, 0, 10`, both primes drawn are 7, and the attempt yields the key `(49, 11, 23, 36)` after 3 draws. |
| `KeyGenerator.EqualPrimesAccepted` | rsa.cpp:129-154 | `RSA_process` as written returns that key: it passes the inverse check. |
| `KeyGenerator.EqualPrimesRejected` | rsa.cpp:129-135 | The corrected procedure, allowed one attempt, discards that key because its primes coincide. |
| `Primes.FermatLittle` | rsa.cpp:97-99 | Fermat's little theorem: `a^p == a` modulo a prime `p`. |
| `Primes.RsaExponent` | rsa.cpp:139-142 | For distinct primes and `x == 1` modulo `(p - 1)(q - 1)`, `m^x == m` modulo `p*q`. |
| `Cipher.Encrypt` | rsa.cpp:207-209 | `enc[i]` is `ApowBmodN(buffer[i], e, n)` for each of the first `size` positions, and no other entry of `enc` changes. |
| `Cipher.Decrypt` | rsa.cpp:220-222 | `dec[i]` is `ApowBmodN(enc[i], d, n)` for each of the first `size` positions, and no other entry of `dec` changes. |
| `Cipher.RoundTripPower` | rsa.cpp:207-222 | For any key, decrypting the encryption of `m` gives `m^(e*d)` modulo `n`, and a value `<= n`. |
| `Cipher.RoundTripModN` | rsa.cpp:207-222 | For a key from distinct primes that passes the inverse check, the round trip is the identity modulo `n`. |
| `Cipher.RsaRoundTrip` | rsa.cpp:207-222 | For such a key, every `m < n` (zero included) comes back unchanged. |
| `Cipher.DistinctPrimesPassRoundTrip` | rsa.cpp:146-152 | Such a key always passes the self-test with 5. |
| `Cipher.SelfChecksRejectOnlyEqualPrimes` | rsa.cpp:142-152 | With unbounded integers, a generated key fails one of the two self-checks only when `p == q`. |
| `Cipher.EncryptThenDecrypt` | rsa.cpp:207-222 | Running the two loops in turn writes the encrypted characters into the first `size` entries of `enc`. For such a key and a message whose characters are all below `n`, it gives `dec[i] == buffer[i]` at every position. Entries from `size` on are unchanged in both arrays. |
| `Cipher.OutOfRangeCharacterWitness` | rsa.cpp:207-222 | The key from primes 2 and 3 (`n = 6`, `e = d = 1`, `φ = 2`) is a valid key that passes the inverse check, yet the character 7 decrypts to 1. |
| `Cipher.EncryptThenDecryptChecked` | rsa.cpp:207-222 | With the range check of RSAEP (section 5.1.1 of RFC 8017), a message is refused, with nothing written, exactly when some character is `>= n`. Any other message is encrypted into the first `size` entries of `enc` and decrypts to itself, and entries from `size` on are unchanged. |
| `Cipher.EqualPrimesLoseMessage` | rsa.cpp:129-135 | For a key from `p == q` with `e * d >= 2`, the message `p` is below `n` but does not come back. |
| `Cipher.EqualPrimesWitness` | rsa.cpp:129-154 | `RSA_process` as written, on table `[7]` with draws `0, 0, 10`, returns the key `(49, 11, 23, 36)`. That key passes both self-checks, yet the character 42 decrypts to 0. |
| `Cipher.ValidatedKeysRoundTrip` | rsa.cpp:129-152 | Every key of the corrected procedure decrypts every `m < n` back to `m`, with no assumption about the primes. |

## Left out

- 64-bit unsigned arithmetic is not modelled; all values are unbounded. This matters for `x*y` and `y*y` in `ApowBmodN` and for `e*d` in the check: with primes of the table's size (`n` near `10^11`) these products can exceed 64 bits in the source, while `p*q` itself fits.
- ExtendedEuclid: coefficients are signed integers. The source stores them in unsigned 64-bit values, where a negative coefficient wraps around. The model's `x + m` in `modInverse` is the unwrapped value; this is proved never negative.
- ModInverse: the conversion of the result to `int` (rsa.cpp:92) is not modelled; the result is the exact natural number below `m`.
- Encrypt: characters are read as unsigned bytes `0..255`. In the source a byte above 127 is read as a negative `char`, and its conversion to `unsigned long long` for `ApowBmodN` gives a value near 2^64.
- Gcd requires `b != 0`, because the source computes `a % b` before its loop.
- ApowBmodN requires `MOD > 0`. The source divides by `MOD` only when a product exceeds it (rsa.cpp:108, 111), so with `MOD == 0` it would still return 1 for `b == 0`; every call passes `n = p*q >= 4`.
- PrimeAt: reading the prime file is not modelled. The table is a sequence of primes, and a position past its end is an error. The source instead returns the last value read, or an uninitialised one, when the position is past the end or the file is missing.
- CalculateE: draws are unbounded naturals, while `rand()` returns values in `[0, RAND_MAX]`. So when `φ > RAND_MAX` the model admits exponents above `RAND_MAX + 1` that the source never draws; the model's universal properties cover them as well.
- CalculateE: `rand()` is a finite sequence of draws. The source's do-while can loop forever; here running out of draws is reported as an error. `srand(time(NULL))` is left out.
- RsaProcess: the unbounded recursion is bounded by `retries`. When the count runs out, the result is an error rather than another recursive call. The source's writes through the four out-pointers are the fields of the returned key; a nested call's results replace the outer ones, as in the source.
- InverseCheckFailsOnlyForUnitTotient: holds with unbounded integers only. In the source `modInverse` converts its result to `int` (rsa.cpp:92) and `e*d` can exceed 64 bits, so for primes of the table's size the check at rsa.cpp:142 fails for most keys and the retry branch is the common path; in the model it is taken only when both primes are 2.
- SelfChecksRejectOnlyEqualPrimes: holds with unbounded integers only, for the same reason.
- RsaProcessValidated: the attempts are bounded by `maxAttempts`, as the source's recursion is bounded by `retries` above; running out of attempts is an error.
- RsaProcess: the round-trip test's `int` variables are not modelled as 32-bit; the values are exact.
- The console I/O of `main`, the timing with `gettimeofday`, the `bitset<32>` output and the `char` narrowing used for display are left out.
- The `strcpy` into the fixed 1024-byte buffer (rsa.cpp:196-198) is left out. The arrays have whatever length the caller gives, and `size` must fit in them.

## Findings

| source | as written | input that shows it | evidently intended | confidence | as-written member | corrected member |
|---|---|---|---|---|---|---|
| rsa.cpp:142-154 | The round-trip test of 5 runs only after the inverse check `(e*d) % φ != 1` has failed, so a key that passes the inverse check is returned untested. | Table `[3]`, draws `0, 0, 2`: `p = q = 3`, `n = 9`, `φ = 4`, `e = d = 3`. Then 5 encrypts to 8 and 8 decrypts to 8. | Every returned key passes both checks. | medium, not executed | `KeyGenerator.RoundTripSkippedExample` | `KeyGenerator.RsaProcessValidated` |
| rsa.cpp:129-135 | The two primes are drawn independently, so they can coincide. Then `n = p^2`, and `n - p - q + 1 = (p - 1)^2` is not the totient `p(p - 1)`. A key can pass both self-checks and still lose messages below `n`. | Table `[7]`, draws `0, 0, 10`: `p = q = 7`, `n = 49`, `φ = 36`, `e = 11`, `d = 23`. Then 5 comes back as 5, but 42 encrypts to 0 and decrypts to 0. | The two primes differ, so every key decrypts every `m < n` back to `m`. | high, not executed | `Cipher.EqualPrimesWitness` | `Cipher.ValidatedKeysRoundTrip` |
| rsa.cpp:207-222 | Characters are encrypted with no check that they are below `n`, so a character `m >= n` comes back only congruent to `m` modulo `n` (`m % n`, or `n` when that is 0). | Primes 2 and 3 (`n = 6`, `φ = 2`, `e = d = 1`), character 7: it decrypts to 1. | A message is encrypted only when every character is below `n` (RSAEP, section 5.1.1 of RFC 8017), and then decrypts to itself. | medium, not executed | `Cipher.OutOfRangeCharacterWitness` | `Cipher.EncryptThenDecryptChecked` |
