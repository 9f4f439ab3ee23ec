/**
 * Key generation of rsa.cpp: the prime table lookup, the coprime exponent
 * selection loop `calculate_e`, one generation attempt, and `RSA_process`
 * with its self-validation and retry.
 *
 * `rand()` is injected as the sequence `draws` of the values it returns, in
 * order, with a position `at` marking the next value it will return; every
 * method that draws returns the position it reached. The prime file is the
 * sequence `table`. The source's unbounded recursive retry is bounded by
 * `retries`.
 */
module KeyGenerator {
  import opened Wrappers
  import opened NumberTheory
  import opened ModularArithmetic

  /** Bound on the prime indices drawn (rsa.cpp:17). */
  const PRIMES_DATASET_LIMIT: nat := 25000

  /** The plaintext of the round-trip self-test (rsa.cpp:146). */
  const TEST_NUM: nat := 5

  /** The prime dataset: every entry is prime. */
  ghost predicate PrimeTable(table: seq<nat>) {
    forall i :: 0 <= i < |table| ==> IsPrime(table[i])
  }

  /** `choose_prime` (rsa.cpp:21-40): the entry at a zero-based position, or
      nothing when the position is past the end of the table. */
  function PrimeAt(table: seq<nat>, position: nat): (r: Option<nat>)
    ensures r.Some? <==> position < |table|
    ensures r.Some? ==> r.value == table[position]
  {
    if position < |table| then Some(table[position]) else None
  }

  // ---------------------------------------------------------------------
  // Totient (rsa.cpp:133-135)

  /** `n - p - q + 1` is `(p - 1) * (q - 1)`, at least 1 for primes, and
      exactly 1 only when both primes are 2. */
  lemma TotientOfPrimes(p: nat, q: nat)
    requires IsPrime(p) && IsPrime(q)
    ensures p * q - p - q + 1 == (p - 1) * (q - 1)
    ensures (p - 1) * (q - 1) >= 1
    ensures (p - 1) * (q - 1) == 1 <==> p == 2 && q == 2
  {
    assert p * q - p - q + 1 == (p - 1) * (q - 1);
    MulAtLeastFactor(p - 1, q - 1);
    if p > 2 {
      MulAtLeastFactor(q - 1, p - 1);
    }
  }

  // ---------------------------------------------------------------------
  // calculate_e (rsa.cpp:62-72)

  /** One candidate exponent `rand() % φ + 1` (rsa.cpp:66): it lies in
      `[1, φ]`, both ends included. */
  function Candidate(draw: nat, phi: nat): (e: nat)
    requires phi >= 1
    ensures 1 <= e <= phi
  {
    draw % phi + 1
  }

  /** Position of the first draw, at `at` or after it, whose candidate is
      coprime to `phi`. */
  ghost function FirstCoprimeDraw(phi: nat, draws: seq<nat>, at: nat): (r: Option<nat>)
    requires phi >= 1
    ensures r.Some? ==> at <= r.value < |draws| && Coprime(Candidate(draws[r.value], phi), phi)
    ensures r.Some? ==> forall k :: at <= k < r.value ==> !Coprime(Candidate(draws[k], phi), phi)
    ensures r.None? ==> forall k :: at <= k < |draws| ==> !Coprime(Candidate(draws[k], phi), phi)
    decreases |draws| - at
  {
    if at >= |draws| then None
    else if Coprime(Candidate(draws[at], phi), phi) then Some(at)
    else FirstCoprimeDraw(phi, draws, at + 1)
  }

  /** The do-while loop of `calculate_e`, reading the draws from position
      `at`: draw until the candidate is coprime to `phi`. The source keeps
      drawing forever; here the draws can run out, and then the result is
      `None`. `next` is the position of the first draw not consumed. */
  method CalculateE(phi: nat, draws: seq<nat>, at: nat) returns (e: Option<nat>, next: nat)
    requires phi >= 1 && at <= |draws|
    ensures at <= next <= |draws|
    ensures e.Some? ==> 1 <= e.value <= phi && Coprime(e.value, phi)
    ensures e.Some? ==> next > at && e.value == Candidate(draws[next - 1], phi)
    ensures forall k :: at <= k < next - 1 ==> !Coprime(Candidate(draws[k], phi), phi)
    ensures e.None? ==> next == |draws| && forall k :: at <= k < |draws| ==> !Coprime(Candidate(draws[k], phi), phi)
    ensures e.Some? <==> FirstCoprimeDraw(phi, draws, at).Some?
    ensures e.Some? ==> next == FirstCoprimeDraw(phi, draws, at).value + 1
  {
    next := at;
    while next < |draws|
      invariant at <= next <= |draws|
      invariant forall k :: at <= k < next ==> !Coprime(Candidate(draws[k], phi), phi)
    {
      var candidate := Candidate(draws[next], phi);
      next := next + 1;
      var g := Gcd(candidate, phi);
      if g == 1 {
        return Some(candidate), next;
      }
      if Coprime(candidate, phi) {
        GcdUnique(g, 1, candidate, phi);
      }
    }
    e := None;
  }

  /** `e == φ` is accepted only when `φ == 1`: every other accepted exponent
      lies strictly between 1 and `φ`, while 1 itself is always accepted. */
  lemma CandidateEndpoints(phi: nat)
    requires phi >= 1
    ensures Coprime(1, phi)
    ensures Coprime(phi, phi) <==> phi == 1
  {
    DividesOne(phi);
    DividesOne(1);
    if Coprime(phi, phi) {
      DividesReflexive(phi);
      DividesUnit(phi);
    }
  }

  // ---------------------------------------------------------------------
  // One generation attempt (rsa.cpp:125-139)

  datatype Key = Key(n: nat, e: nat, d: nat, phi: nat)

  datatype KeyError = PrimeNotFound | DrawsExhausted | RetryLimitExceeded

  /** What a run produced, and the position of the first draw it did not
      consume. */
  datatype Outcome = Outcome(res: Result<Key, KeyError>, next: nat)

  /** Key material derived from the primes `p` and `q` as the source derives it. */
  ghost predicate KeyFromPrimes(k: Key, p: nat, q: nat) {
    IsPrime(p) && IsPrime(q) &&
    k.n == p * q && k.phi == (p - 1) * (q - 1) && k.phi >= 1 &&
    1 <= k.e <= k.phi && Coprime(k.e, k.phi) && k.d < k.phi
  }

  /** Key material derived from two primes of the table, the first drawn from
      the first `2 * PRIMES_DATASET_LIMIT` entries, the second from the first
      `PRIMES_DATASET_LIMIT`. */
  ghost predicate KeyFromTable(table: seq<nat>, k: Key) {
    exists i, j :: 0 <= i < |table| && 0 <= j < |table| &&
      i < 2 * PRIMES_DATASET_LIMIT && j < PRIMES_DATASET_LIMIT &&
      KeyFromPrimes(k, table[i], table[j])
  }

  /** The first self-check of rsa.cpp:142, `(e * d) % φ == 1`. */
  predicate PassesInverseCheck(k: Key) {
    k.phi > 0 && (k.e * k.d) % k.phi == 1
  }

  /** The two primes an attempt from position `at` draws (rsa.cpp:129-131):
      the entry at the first draw modulo `2 * PRIMES_DATASET_LIMIT` and the
      entry at the second draw modulo `PRIMES_DATASET_LIMIT`, when there are
      two draws and both entries exist. */
  function DrawnPrimes(table: seq<nat>, draws: seq<nat>, at: nat): (r: Option<(nat, nat)>)
    requires at <= |draws|
    ensures r.Some? <==> at + 2 <= |draws| &&
                         draws[at] % (2 * PRIMES_DATASET_LIMIT) < |table| &&
                         draws[at + 1] % PRIMES_DATASET_LIMIT < |table|
    ensures r.Some? ==> r.value == (table[draws[at] % (2 * PRIMES_DATASET_LIMIT)],
                                    table[draws[at + 1] % PRIMES_DATASET_LIMIT])
  {
    if |draws| - at < 2 then None
    else
      var pAt := PrimeAt(table, draws[at] % (2 * PRIMES_DATASET_LIMIT));
      var qAt := PrimeAt(table, draws[at + 1] % PRIMES_DATASET_LIMIT);
      if pAt.None? || qAt.None? then None else Some((pAt.value, qAt.value))
  }

  /** What one attempt of `RSA_process` computes from the table and the draws
      from position `at` on: a key built from two table primes, or the reason
      there is none. */
  ghost function FirstAttempt(table: seq<nat>, draws: seq<nat>, at: nat): (r: Outcome)
    requires PrimeTable(table) && at <= |draws|
    ensures at <= r.next <= |draws|
    ensures r.res.Err? ==> r.res.error != RetryLimitExceeded
  {
    if |draws| - at < 2 then Outcome(Err(DrawsExhausted), |draws|)
    else match DrawnPrimes(table, draws, at)
      case None => Outcome(Err(PrimeNotFound), at + 2)
      case Some((p, q)) => SearchExponent(p, q, draws, at + 2)
  }

  /** The do-while loop of `calculate_e` for the primes `p` and `q`, from
      position `at`: stop with the key once a candidate is coprime to φ, fail
      once the draws run out. */
  ghost function SearchExponent(p: nat, q: nat, draws: seq<nat>, at: nat): (r: Outcome)
    requires p >= 2 && q >= 2 && at <= |draws|
    ensures at <= r.next <= |draws|
    ensures r.res.Err? ==> r.res == Err(DrawsExhausted)
    decreases |draws| - at, 1
  {
    if at == |draws| then Outcome(Err(DrawsExhausted), at)
    else TryExponent(p, q, draws, at)
  }

  /** One iteration of that loop: the candidate from the draw at `at`, and
      `n = p * q`, `φ = (p - 1) * (q - 1)`, `d = modInverse(e, φ)` if it is
      accepted. */
  ghost function TryExponent(p: nat, q: nat, draws: seq<nat>, at: nat): (r: Outcome)
    requires p >= 2 && q >= 2 && at < |draws|
    ensures at < r.next <= |draws|
    ensures r.res.Err? ==> r.res == Err(DrawsExhausted)
    decreases |draws| - at, 0
  {
    MulAtLeastFactor(p - 1, q - 1);
    var phi: nat := (p - 1) * (q - 1);
    var e := Candidate(draws[at], phi);
    if Coprime(e, phi) then Outcome(Ok(Key(p * q, e, ModInverse(e, phi), phi)), at + 1)
    else SearchExponent(p, q, draws, at + 1)
  }

  /** The search stops at the draw `FirstCoprimeDraw` finds, with the key the
      source derives from it, and reports exhaustion when there is none. */
  lemma {:induction false} SearchFindsFirstCoprime(p: nat, q: nat, draws: seq<nat>, at: nat)
    requires p >= 2 && q >= 2 && at <= |draws|
    ensures (p - 1) * (q - 1) >= 1
    ensures var phi := (p - 1) * (q - 1);
            var r := SearchExponent(p, q, draws, at);
            match FirstCoprimeDraw(phi, draws, at)
            case None => r == Outcome(Err(DrawsExhausted), |draws|)
            case Some(k) =>
              var e := Candidate(draws[k], phi);
              r == Outcome(Ok(Key(p * q, e, ModInverse(e, phi), phi)), k + 1)
    decreases |draws| - at
  {
    MulAtLeastFactor(p - 1, q - 1);
    if at < |draws| {
      SearchFindsFirstCoprime(p, q, draws, at + 1);
    }
  }

  /** A key the search returns is derived from `p` and `q` as the source
      derives it. */
  lemma {:induction false} SearchKeyFromPrimes(p: nat, q: nat, draws: seq<nat>, at: nat)
    requires IsPrime(p) && IsPrime(q) && at <= |draws|
    ensures SearchExponent(p, q, draws, at).res.Ok? ==>
              KeyFromPrimes(SearchExponent(p, q, draws, at).res.value, p, q)
    decreases |draws| - at
  {
    MulAtLeastFactor(p - 1, q - 1);
    if at < |draws| {
      SearchKeyFromPrimes(p, q, draws, at + 1);
    }
  }

  /** A key of an attempt is built from two primes of the table. */
  lemma FirstAttemptKey(table: seq<nat>, draws: seq<nat>, at: nat)
    requires PrimeTable(table) && at <= |draws|
    ensures FirstAttempt(table, draws, at).res.Ok? ==>
              KeyFromTable(table, FirstAttempt(table, draws, at).res.value)
  {
    FirstAttemptPrimes(table, draws, at);
  }

  /** A key of an attempt is built from the two primes the attempt drew. */
  lemma FirstAttemptPrimes(table: seq<nat>, draws: seq<nat>, at: nat)
    requires PrimeTable(table) && at <= |draws|
    ensures var r := FirstAttempt(table, draws, at);
            r.res.Ok? ==> DrawnPrimes(table, draws, at).Some? &&
                          KeyFromPrimes(r.res.value, DrawnPrimes(table, draws, at).value.0,
                                        DrawnPrimes(table, draws, at).value.1)
  {
    var primes := DrawnPrimes(table, draws, at);
    if primes.Some? {
      SearchKeyFromPrimes(primes.value.0, primes.value.1, draws, at + 2);
    }
  }

  /** The key material of rsa.cpp:133-139 for the primes `p` and `q`:
      `n = p * q`, `φ = n - p - q + 1`, `e` from `calculate_e` reading the
      draws from position `at`, and `d = modInverse(e, φ)`. */
  method DeriveKey(p: nat, q: nat, draws: seq<nat>, at: nat) returns (r: Result<Key, KeyError>, next: nat)
    requires IsPrime(p) && IsPrime(q) && at <= |draws|
    ensures Outcome(r, next) == SearchExponent(p, q, draws, at)
    ensures at <= next <= |draws|
    ensures r.Ok? ==> KeyFromPrimes(r.value, p, q)
    ensures r.Err? ==> r == Err(DrawsExhausted)
  {
    SearchFindsFirstCoprime(p, q, draws, at);
    SearchKeyFromPrimes(p, q, draws, at);
    var n := p * q;
    TotientOfPrimes(p, q);
    var phi: nat := n - p - q + 1;
    var e;
    e, next := CalculateE(phi, draws, at);
    if e.None? {
      return Err(DrawsExhausted), next;
    }
    var d := ModInverse(e.value, phi);
    r := Ok(Key(n, e.value, d, phi));
  }

  /** One attempt: two primes from two draws, then the key material derived
      from them. */
  method DrawKey(table: seq<nat>, draws: seq<nat>, at: nat) returns (r: Result<Key, KeyError>, next: nat)
    requires PrimeTable(table) && at <= |draws|
    ensures Outcome(r, next) == FirstAttempt(table, draws, at)
    ensures at <= next <= |draws|
    ensures r.Ok? ==> KeyFromTable(table, r.value)
    ensures r.Err? ==> r.error != RetryLimitExceeded
  {
    FirstAttemptKey(table, draws, at);
    if |draws| - at < 2 {
      return Err(DrawsExhausted), |draws|;
    }
    var primes := DrawnPrimes(table, draws, at);
    if primes.None? {
      return Err(PrimeNotFound), at + 2;
    }
    var p, q := primes.value.0, primes.value.1;
    FirstAttemptOfPrimes(table, draws, at, p, q);
    r, next := DeriveKey(p, q, draws, at + 2);
  }

  /** A key of the table: n > 0 and φ >= 1. */
  lemma KeyFromTableBounds(table: seq<nat>, k: Key)
    requires KeyFromTable(table, k)
    ensures k.n > 0 && k.phi >= 1
  {
    var i, j :| 0 <= i < |table| && 0 <= j < |table| &&
      i < 2 * PRIMES_DATASET_LIMIT && j < PRIMES_DATASET_LIMIT &&
      KeyFromPrimes(k, table[i], table[j]);
    MulAtLeastFactor(table[i], table[j]);
  }

  /** With unbounded integers the first self-check fails only when `φ == 1`,
      that is when both primes drawn are 2. */
  lemma InverseCheckFailsOnlyForUnitTotient(k: Key, p: nat, q: nat)
    requires KeyFromPrimes(k, p, q) && k.d == ModInverse(k.e, k.phi)
    ensures !PassesInverseCheck(k) <==> p == 2 && q == 2
  {
    TotientOfPrimes(p, q);
  }

  // ---------------------------------------------------------------------
  // RSA_process (rsa.cpp:121-156)

  /** A key that passes the inverse check. */
  ghost predicate ValidKey(table: seq<nat>, k: Key) {
    KeyFromTable(table, k) && PassesInverseCheck(k)
  }

  /** The round-trip self-test of rsa.cpp:146-152 passes for key `k`. */
  predicate PassesRoundTrip(k: Key) {
    k.n > 0 && SquareAndMultiply(1, SquareAndMultiply(1, TEST_NUM, k.e, k.n), k.d, k.n) == TEST_NUM
  }

  /** The round-trip self-test of rsa.cpp:146-152: encrypt `TEST_NUM` with
      `e`, decrypt the result with `d`, and compare. */
  method RoundTripTest(k: Key) returns (passed: bool)
    requires k.n > 0
    ensures passed == PassesRoundTrip(k)
  {
    var testEnc := ApowBmodN(TEST_NUM, k.e, k.n);
    var testDec := ApowBmodN(testEnc, k.d, k.n);
    passed := testDec == TEST_NUM;
  }

  /** What `RSA_process` as written computes (rsa.cpp:125-154), reading the
      draws from position `at`. One attempt; if `(e * d) % φ != 1` the whole
      procedure runs again on the draws that follow, then the round trip of
      `TEST_NUM` is tested on the key that run produced, and if it fails the
      procedure runs once more, and its result is the result. Every nested
      run has one retry fewer. */
  ghost function ProcessOutcome(table: seq<nat>, draws: seq<nat>, at: nat, retries: nat): (r: Outcome)
    requires PrimeTable(table) && at <= |draws|
    ensures at <= r.next <= |draws|
    decreases retries
  {
    var first := FirstAttempt(table, draws, at);
    if first.res.Err? || PassesInverseCheck(first.res.value) then first
    else if retries == 0 then Outcome(Err(RetryLimitExceeded), first.next)
    else
      var again := ProcessOutcome(table, draws, first.next, retries - 1);
      if again.res.Ok? && !PassesRoundTrip(again.res.value)
      then ProcessOutcome(table, draws, again.next, retries - 1)
      else again
  }

  /** Whatever the nesting, every key `RSA_process` returns is built from two
      table primes and passes the inverse check. */
  lemma {:induction false} ProcessKeysPassInverseCheck(table: seq<nat>, draws: seq<nat>, at: nat, retries: nat)
    requires PrimeTable(table) && at <= |draws|
    ensures var r := ProcessOutcome(table, draws, at, retries);
            r.res.Ok? ==> ValidKey(table, r.res.value)
    decreases retries
  {
    FirstAttemptKey(table, draws, at);
    var first := FirstAttempt(table, draws, at);
    if first.res.Ok? && !PassesInverseCheck(first.res.value) && retries > 0 {
      ProcessKeysPassInverseCheck(table, draws, first.next, retries - 1);
      var again := ProcessOutcome(table, draws, first.next, retries - 1);
      ProcessKeysPassInverseCheck(table, draws, again.next, retries - 1);
    }
  }

  /** `RSA_process` as written, reading the draws from position `at`. It
      returns exactly what `ProcessOutcome` describes: a first attempt that
      fails is reported, one that passes the inverse check is returned at
      once without the round-trip test, and one that fails it leads to the
      nested runs. Every key returned passes the inverse check. */
  method RsaProcess(table: seq<nat>, draws: seq<nat>, at: nat, retries: nat) returns (res: Result<Key, KeyError>, next: nat)
    requires PrimeTable(table) && at <= |draws|
    ensures Outcome(res, next) == ProcessOutcome(table, draws, at, retries)
    ensures at <= next <= |draws|
    ensures res.Ok? ==> ValidKey(table, res.value)
    decreases retries
  {
    ProcessKeysPassInverseCheck(table, draws, at, retries);
    var first;
    first, next := DrawKey(table, draws, at);
    res := first;
    if first.Ok? && !PassesInverseCheck(first.value) {
      if retries == 0 {
        res := Err(RetryLimitExceeded);
      } else {
        res, next := RsaProcess(table, draws, next, retries - 1);
        if res.Ok? {
          KeyFromTableBounds(table, res.value);
          var passed := RoundTripTest(res.value);
          if !passed {
            res, next := RsaProcess(table, draws, next, retries - 1);
          }
        }
      }
    }
  }

  /** The two primes an attempt from position `at` draws are both found and
      differ. */
  predicate DistinctPrimes(table: seq<nat>, draws: seq<nat>, at: nat)
    requires at <= |draws|
  {
    var primes := DrawnPrimes(table, draws, at);
    primes.Some? && primes.value.0 != primes.value.1
  }

  /** The key is built from two distinct primes. */
  ghost predicate FromDistinctPrimes(k: Key) {
    exists p, q :: p != q && KeyFromPrimes(k, p, q)
  }

  /** An attempt's key the corrected procedure keeps: its primes differ, and it
      passes both self-checks. */
  predicate Acceptable(table: seq<nat>, draws: seq<nat>, at: nat, k: Key)
    requires at <= |draws|
  {
    DistinctPrimes(table, draws, at) && PassesInverseCheck(k) && PassesRoundTrip(k)
  }

  /** Key generation with the primes required to differ and both self-checks
      applied to every attempt, reading the draws from position `at`: a first
      attempt that draws two distinct primes and passes both checks is the
      result; any other attempt that yields a key is discarded, and generation
      goes on with the draws that follow and one attempt fewer. */
  ghost function ValidatedOutcome(table: seq<nat>, draws: seq<nat>, at: nat, maxAttempts: nat): (r: Outcome)
    requires PrimeTable(table) && at <= |draws|
    ensures at <= r.next <= |draws|
    decreases maxAttempts
  {
    if maxAttempts == 0 then Outcome(Err(RetryLimitExceeded), at)
    else
      var first := FirstAttempt(table, draws, at);
      if first.res.Err? || Acceptable(table, draws, at, first.res.value) then first
      else ValidatedOutcome(table, draws, first.next, maxAttempts - 1)
  }

  /** Every key of the corrected procedure is built from two distinct primes
      of the table and passes both self-checks. */
  lemma {:induction false} ValidatedKeysPassBothChecks(table: seq<nat>, draws: seq<nat>, at: nat, maxAttempts: nat)
    requires PrimeTable(table) && at <= |draws|
    ensures var r := ValidatedOutcome(table, draws, at, maxAttempts);
            r.res.Ok? ==> ValidKey(table, r.res.value) && PassesRoundTrip(r.res.value) &&
                          FromDistinctPrimes(r.res.value)
    decreases maxAttempts
  {
    if maxAttempts > 0 {
      FirstAttemptKey(table, draws, at);
      FirstAttemptPrimes(table, draws, at);
      var first := FirstAttempt(table, draws, at);
      if first.res.Ok? && Acceptable(table, draws, at, first.res.value) {
        var primes := DrawnPrimes(table, draws, at).value;
        assert primes.0 != primes.1 && KeyFromPrimes(first.res.value, primes.0, primes.1);
      } else if first.res.Ok? {
        ValidatedKeysPassBothChecks(table, draws, first.next, maxAttempts - 1);
      }
    }
  }

  /** The corrected procedure as a loop of at most `maxAttempts` attempts,
      each drawing from where the previous one stopped. A first attempt whose
      primes coincide or that fails either check leads to the same procedure
      on the draws after it, with one attempt fewer. */
  method RsaProcessValidated(table: seq<nat>, draws: seq<nat>, at: nat, maxAttempts: nat) returns (res: Result<Key, KeyError>, next: nat)
    requires PrimeTable(table) && at <= |draws|
    ensures Outcome(res, next) == ValidatedOutcome(table, draws, at, maxAttempts)
    ensures at <= next <= |draws|
    ensures res.Ok? ==> ValidKey(table, res.value) && PassesRoundTrip(res.value) && FromDistinctPrimes(res.value)
    ensures maxAttempts == 0 ==> res == Err(RetryLimitExceeded)
    ensures maxAttempts > 0 && FirstAttempt(table, draws, at).res.Err? ==>
              Outcome(res, next) == FirstAttempt(table, draws, at)
    ensures maxAttempts > 0 && FirstAttempt(table, draws, at).res.Ok? ==>
              var first := FirstAttempt(table, draws, at);
              if Acceptable(table, draws, at, first.res.value)
              then Outcome(res, next) == first
              else Outcome(res, next) == ValidatedOutcome(table, draws, first.next, maxAttempts - 1)
  {
    ValidatedKeysPassBothChecks(table, draws, at, maxAttempts);
    next := at;
    var attempts := 0;
    while attempts < maxAttempts
      invariant attempts <= maxAttempts && at <= next <= |draws|
      invariant ValidatedOutcome(table, draws, at, maxAttempts) ==
                ValidatedOutcome(table, draws, next, maxAttempts - attempts)
    {
      var start := next;
      var r;
      r, next := DrawKey(table, draws, start);
      if r.Err? {
        return Err(r.error), next;
      }
      var k := r.value;
      KeyFromTableBounds(table, k);
      if DistinctPrimes(table, draws, start) && PassesInverseCheck(k) {
        var passed := RoundTripTest(k);
        if passed {
          return Ok(k), next;
        }
      }
      attempts := attempts + 1;
    }
    res := Err(RetryLimitExceeded);
  }

  // ---------------------------------------------------------------------
  // The round-trip test is skipped when the inverse check passes

  /** Drawing 3 twice gives `n = 9`, `φ = (3 - 1) * (3 - 1) = 4`, `e = 3` and
      `d = 3`: the inverse check passes, but 5 encrypts to 8 and 8 decrypts
      to 8. */
  lemma RoundTripSkippedWitness()
    ensures PrimeTable([3])
    ensures FirstAttempt([3], [0, 0, 2], 0) == Outcome(Ok(Key(9, 3, 3, 4)), 3)
    ensures PassesInverseCheck(Key(9, 3, 3, 4))
    ensures !PassesRoundTrip(Key(9, 3, 3, 4))
  {
    ThreePrime();
    FirstAttemptOfThrees([3], [0, 0, 2]);
    assert SquareAndMultiply(1, 5, 3, 9) == 8;
    assert SquareAndMultiply(1, 8, 3, 9) == 8;
  }

  /** On the same draws the corrected procedure discards that key and makes a
      second attempt, which finds no draws left. */
  lemma ValidatedRetriesAfterWitness(table: seq<nat>, draws: seq<nat>)
    requires table == [3] && draws == [0, 0, 2] && PrimeTable(table)
    ensures ValidatedOutcome(table, draws, 0, 2) == Outcome(Err(DrawsExhausted), 3)
  {
    FirstAttemptOfThrees(table, draws);
    assert SquareAndMultiply(1, 5, 3, 9) == 8;
    assert SquareAndMultiply(1, 8, 3, 9) == 8;
  }

  lemma ThreePrime()
    ensures PrimeTable([3])
  {
    assert IsPrime(3);
  }

  /** The first attempt on table `[3]` with draws `0, 0, 2`. */
  lemma FirstAttemptOfThrees(table: seq<nat>, draws: seq<nat>)
    requires table == [3] && draws == [0, 0, 2] && PrimeTable(table)
    ensures FirstAttempt(table, draws, 0) == Outcome(Ok(Key(9, 3, 3, 4)), 3)
  {
    assert DrawnPrimes(table, draws, 0) == Some((3, 3));
    FirstAttemptOfPrimes(table, draws, 0, 3, 3);
    AttemptWitness(draws);
  }

  /** With both primes found, an attempt goes on to search for `e` in the
      draws that follow. */
  lemma FirstAttemptOfPrimes(table: seq<nat>, draws: seq<nat>, at: nat, p: nat, q: nat)
    requires PrimeTable(table) && at <= |draws| && DrawnPrimes(table, draws, at) == Some((p, q))
    ensures p >= 2 && q >= 2
    ensures FirstAttempt(table, draws, at) == SearchExponent(p, q, draws, at + 2)
  {
  }

  /** The search for `e` with `p = q = 3` accepts the draw 2. */
  lemma AttemptWitness(draws: seq<nat>)
    requires draws == [0, 0, 2]
    ensures SearchExponent(3, 3, draws, 2) == Outcome(Ok(Key(9, 3, 3, 4)), 3)
  {
    ThreeCoprimeToFour();
    assert Candidate(draws[2], 4) == 3;
  }

  lemma ThreeCoprimeToFour()
    ensures Coprime(3, 4)
  {
    forall c: nat | Divides(c, 3) && Divides(c, 4)
      ensures Divides(c, 1)
    {
      DividesBound(c, 3);
      DividesOne(1);
    }
    DividesOne(3);
    DividesOne(4);
  }

  // ---------------------------------------------------------------------
  // The two primes can coincide

  lemma SevenPrime()
    ensures PrimeTable([7])
  {
    assert IsPrime(7);
  }

  lemma ElevenCoprimeToThirtySix()
    ensures Coprime(11, 36)
  {
    forall c: nat | Divides(c, 11) && Divides(c, 36)
      ensures Divides(c, 1)
    {
      DividesBound(c, 11);
      DividesOne(1);
    }
    DividesOne(11);
    DividesOne(36);
  }

  /** The inverse of 11 modulo 36 is 23, the only value below 36 whose
      product with 11 is 1 modulo 36. */
  lemma InverseOfEleven(e: nat, phi: nat)
    requires e == 11 && phi == 36
    ensures ModInverse(e, phi) == 23
  {
    ElevenCoprimeToThirtySix();
    var d := ModInverse(e, phi);
    assert d < 36 && (11 * d) % 36 == 1;
  }

  /** The first attempt on table `[7]` with draws `0, 0, 10` draws 7 twice:
      `n = 49`, `φ = (7 - 1) * (7 - 1) = 36`, `e = 11` and `d = 23`. */
  lemma FirstAttemptOfSevens(table: seq<nat>, draws: seq<nat>)
    requires table == [7] && draws == [0, 0, 10] && PrimeTable(table)
    ensures DrawnPrimes(table, draws, 0) == Some((7, 7))
    ensures FirstAttempt(table, draws, 0) == Outcome(Ok(Key(49, 11, 23, 36)), 3)
  {
    assert DrawnPrimes(table, draws, 0) == Some((7, 7));
    FirstAttemptOfPrimes(table, draws, 0, 7, 7);
    ElevenCoprimeToThirtySix();
    assert Candidate(draws[2], 36) == 11;
    InverseOfEleven(11, 36);
  }

  /** `RSA_process` as written returns that key: it passes the inverse check,
      so no retry happens. */
  lemma EqualPrimesAccepted(table: seq<nat>, draws: seq<nat>)
    requires table == [7] && draws == [0, 0, 10] && PrimeTable(table)
    ensures PassesInverseCheck(Key(49, 11, 23, 36))
    ensures ProcessOutcome(table, draws, 0, 0) == Outcome(Ok(Key(49, 11, 23, 36)), 3)
  {
    FirstAttemptOfSevens(table, draws);
  }

  /** The corrected procedure discards the attempt whose primes coincide. */
  lemma EqualPrimesRejected(table: seq<nat>, draws: seq<nat>)
    requires table == [7] && draws == [0, 0, 10] && PrimeTable(table)
    ensures ValidatedOutcome(table, draws, 0, 1) == Outcome(Err(RetryLimitExceeded), 3)
  {
    FirstAttemptOfSevens(table, draws);
  }

  /** `RsaProcess` as written accepts that key. */
  method RoundTripSkippedExample() returns (k: Key)
    ensures k == Key(9, 3, 3, 4)
    ensures PassesInverseCheck(k) && !PassesRoundTrip(k)
  {
    RoundTripSkippedWitness();
    var res, next := RsaProcess([3], [0, 0, 2], 0, 0);
    k := res.value;
  }
}
