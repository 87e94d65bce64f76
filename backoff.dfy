/**
 * The retry helper `withExponentialBackoff` (src/utils/backoff.ts).
 *
 * The asynchronous operation is an oracle: `op[i]` is how the i-th call of the
 * operation settles. `Math.random()` is an injected sequence `random` whose i-th
 * element is the fraction drawn before the i-th retry. Sleeping is recorded, not
 * performed: the method returns the list of delays it hands to `setTimeout`.
 */
module Backoff {
  import opened Wrappers

  /** A JavaScript `Error` object (or an instance of a subclass), as far as the helper sees it. */
  datatype Error = Error(name: string, message: string)

  /** A value thrown by (or a rejection reason of) the operation: an `Error`; any other
      value, given by its `String(...)` form; or a value whose `String(...)` conversion
      itself throws (an object without a primitive form, such as
      `Object.create(null)`, or one whose `toString` throws), given by the error that
      conversion throws. */
  datatype Thrown = ThrownError(error: Error) | ThrownValue(text: string) | ThrownUnconvertible(conversionError: Error)

  /** How one call of the operation settles. */
  datatype Outcome<T> = Resolved(value: T) | Rejected(reason: Thrown)

  /** How the helper itself settles. `ThrewNull` is `throw lastError` while
      `lastError` is still `null`, which happens only when no attempt was made. */
  datatype Settlement<T> = Returned(value: T) | Threw(error: Error) | ThrewNull

  /** Error normalisation inside the `catch` block: an `Error` is kept as it is; any
      other thrown value becomes `new Error(String(value))`, whose name is "Error" and
      whose message is that string. When `String(value)` itself throws, normalisation
      fails with that error, which escapes the `catch` block. */
  function Normalize(t: Thrown): (n: Result<Error, Error>)
    ensures t.ThrownError? ==> n == Success(t.error)
    ensures t.ThrownValue? ==> n.Success? && n.value.name == "Error" && n.value.message == t.text
    ensures n.Failure? <==> t.ThrownUnconvertible?
    ensures n.Failure? ==> n.error == t.conversionError
  {
    match t
    case ThrownError(err) => Success(err)
    case ThrownValue(text) => Success(Error("Error", text))
    case ThrownUnconvertible(err) => Failure(err)
  }

  /** The error the helper throws when `t` is the last rejection it handles: the
      normalised error, or the error its normalisation threw. */
  function Surfaced(t: Thrown): Error
  {
    match Normalize(t)
    case Success(e) => e
    case Failure(e) => e
  }

  /** A failed call after which the helper goes on: its error could be normalised. */
  predicate Retryable<T>(o: Outcome<T>)
  {
    o.Rejected? && Normalize(o.reason).Success?
  }

  /** `Math.pow(2, n)` for a natural exponent. */
  function Pow2(n: nat): (p: nat)
    ensures p >= 1
  {
    if n == 0 then 1 else 2 * Pow2(n - 1)
  }

  /** The base delay before retry number `attempt + 1`: `baseDelayMs * 2^attempt`. It is
      never below the base delay, and positive with a positive base. */
  function BaseDelay(baseDelayMs: real, attempt: nat): (d: real)
    ensures baseDelayMs >= 0.0 ==> baseDelayMs <= d
    ensures baseDelayMs > 0.0 ==> 0.0 < d
  {
    baseDelayMs * Pow2(attempt) as real
  }

  /** The delay handed to `setTimeout` after failed attempt `attempt`, given the random
      fraction `u` drawn for it: the base delay plus a jitter of `u` times 10% of it.
      The jitter is non-negative and below 10% of the base delay: for a non-negative
      base, `d <= total <= 1.1 * d` where `d` is the base delay, and the upper bound is
      strict when the base is positive. */
  function TotalDelay(baseDelayMs: real, attempt: nat, u: real): (t: real)
    ensures baseDelayMs >= 0.0 && IsFraction(u) ==>
      BaseDelay(baseDelayMs, attempt) <= t <= 1.1 * BaseDelay(baseDelayMs, attempt)
    ensures baseDelayMs > 0.0 && IsFraction(u) ==> t < 1.1 * BaseDelay(baseDelayMs, attempt)
  {
    var delayMs := BaseDelay(baseDelayMs, attempt);
    var total := delayMs + delayMs * 0.1 * u;
    assert baseDelayMs >= 0.0 && IsFraction(u) ==> delayMs <= total <= 1.1 * delayMs by {
      if baseDelayMs >= 0.0 && IsFraction(u) {
        JitteredBounds(delayMs, u);
      }
    }
    assert baseDelayMs > 0.0 && IsFraction(u) ==> total < 1.1 * delayMs by {
      if baseDelayMs > 0.0 && IsFraction(u) {
        JitteredBounds(delayMs, u);
      }
    }
    total
  }

  /** A fraction as `Math.random()` returns it. */
  predicate IsFraction(u: real)
  {
    0.0 <= u < 1.0
  }

  /**
   * withExponentialBackoff(fn, maxRetries = 3, baseDelayMs = 1000).
   *
   * Calls the operation up to `maxRetries + 1` times and returns the first success.
   * After every failed attempt but the last it hands a delay to `setTimeout`. When
   * every attempt failed it throws the normalised error of the last attempt. A thrown
   * value whose normalisation itself throws ends the helper at once with that error.
   * Returns how it settled, how many times the operation was called, and the delays
   * handed to `setTimeout`, in order.
   */
  method WithExponentialBackoff<T>(op: seq<Outcome<T>>, random: seq<real>, maxRetries: int := 3, baseDelayMs: real := 1000.0)
    returns (r: Settlement<T>, calls: nat, delays: seq<real>)
    requires maxRetries < |op|
    requires maxRetries <= |random|
    requires forall i :: 0 <= i < |random| ==> IsFraction(random[i])
    // how many attempts are made
    ensures maxRetries < 0 ==> calls == 0
    ensures maxRetries >= 0 ==> 1 <= calls <= maxRetries + 1
    // every attempt but the last one failed, with an error that could be normalised
    ensures forall i :: 0 <= i < calls - 1 ==> Retryable(op[i])
    // it stops before the budget is spent only on a success or an unconvertible value
    ensures 0 < calls < maxRetries + 1 ==> !Retryable(op[calls - 1])
    // the first success is returned as it is
    ensures r.Returned? <==> calls > 0 && op[calls - 1].Resolved?
    ensures r.Returned? ==> r.value == op[calls - 1].value
    // otherwise the error of the last attempt surfaces
    ensures r.Threw? <==> calls > 0 && op[calls - 1].Rejected?
    ensures r.Threw? ==> calls > 0 && r.error == Surfaced(op[calls - 1].reason)
    ensures r.ThrewNull? <==> maxRetries < 0
    // one delay after each failed attempt that is not the last
    ensures |delays| == if calls == 0 then 0 else calls - 1
    ensures forall i :: 0 <= i < |delays| ==> delays[i] == TotalDelay(baseDelayMs, i, random[i])
    ensures baseDelayMs > 0.0 ==> forall i :: 0 < i < |delays| ==> delays[i - 1] < delays[i]
    // the same, scenario by scenario: k failures then a success within the budget ...
    ensures forall k :: 0 <= k <= maxRetries && op[k].Resolved? && (forall i :: 0 <= i < k ==> Retryable(op[i])) ==>
      calls == k + 1 && r == Returned(op[k].value) && |delays| == k
    // ... k failures then a value whose normalisation throws ...
    ensures forall k ::
      (0 <= k <= maxRetries && op[k].Rejected? && op[k].reason.ThrownUnconvertible? &&
       (forall i :: 0 <= i < k ==> Retryable(op[i]))) ==>
      calls == k + 1 && r == Threw(op[k].reason.conversionError) && |delays| == k
    // ... and failure of every attempt
    ensures maxRetries >= 0 && (forall i :: 0 <= i < maxRetries ==> Retryable(op[i])) && Retryable(op[maxRetries]) ==>
      calls == maxRetries + 1 && r == Threw(Normalize(op[maxRetries].reason).value) && |delays| == maxRetries
  {
    var lastError: Option<Error> := None;
    calls := 0;
    delays := [];
    var attempt: nat := 0;
    while attempt <= maxRetries
      invariant maxRetries < 0 ==> attempt == 0
      invariant maxRetries >= 0 ==> attempt <= maxRetries + 1
      invariant calls == attempt
      invariant forall i :: 0 <= i < attempt ==> Retryable(op[i])
      invariant attempt == 0 <==> lastError.None?
      invariant attempt > 0 ==> lastError == Some(Normalize(op[attempt - 1].reason).value)
      invariant |delays| == if attempt == 0 then 0 else attempt - 1 + (if attempt <= maxRetries then 1 else 0)
      invariant forall i :: 0 <= i < |delays| ==> delays[i] == TotalDelay(baseDelayMs, i, random[i])
      invariant baseDelayMs > 0.0 ==> forall i :: 0 < i < |delays| ==> delays[i - 1] < delays[i]
    {
      calls := calls + 1;
      match op[attempt]
      case Resolved(v) =>
        r := Returned(v);
        return;
      case Rejected(reason) =>
        match Normalize(reason)
        case Failure(conversionError) =>
          r := Threw(conversionError);
          return;
        case Success(e) =>
          lastError := Some(e);
          if attempt < maxRetries {
            var delayMs := baseDelayMs * Pow2(attempt) as real;
            var jitter := delayMs * 0.1 * random[attempt];
            var totalDelay := delayMs + jitter;
            if baseDelayMs > 0.0 && attempt > 0 {
              DelayGrows(baseDelayMs, attempt - 1, random[attempt - 1], random[attempt]);
            }
            delays := delays + [totalDelay];
          }
      attempt := attempt + 1;
    }
    r := if lastError.None? then ThrewNull else Threw(lastError.value);
  }

  /** `2^j` is at least twice `2^i` when `i < j`. */
  lemma {:induction false} Pow2Doubles(i: nat, j: nat)
    requires i < j
    ensures 2 * Pow2(i) <= Pow2(j)
  {
    if j > i + 1 {
      Pow2Doubles(i, j - 1);
    }
  }

  /** `d + d * 0.1 * u` lies between `d` and `1.1 * d` for a fraction `u`. */
  lemma JitteredBounds(d: real, u: real)
    requires d >= 0.0 && IsFraction(u)
    ensures d <= d + d * 0.1 * u <= 1.1 * d
    ensures d > 0.0 ==> d + d * 0.1 * u < 1.1 * d
  {
    FractionOf(d * 0.1, u);
  }

  /** Despite the jitter, the delay after attempt `i + 1` is longer than the delay after
      attempt `i`, whatever fractions were drawn: `1.1 * d < 2 * d`. */
  lemma DelayGrows(baseDelayMs: real, i: nat, u: real, v: real)
    requires baseDelayMs > 0.0 && IsFraction(u) && IsFraction(v)
    ensures TotalDelay(baseDelayMs, i, u) < TotalDelay(baseDelayMs, i + 1, v)
  {
    DelaysIncrease(baseDelayMs, i, i + 1, u, v);
  }

  lemma NonNegativeProduct(x: real, y: real)
    requires x >= 0.0 && y >= 0.0
    ensures x * y >= 0.0
  {
  }

  lemma PositiveProduct(x: real, y: real)
    requires x > 0.0 && y > 0.0
    ensures x * y > 0.0
  {
  }

  /** A fraction of a non-negative amount lies between zero and the amount, strictly
      below it when the amount is positive. */
  lemma FractionOf(e: real, u: real)
    requires e >= 0.0 && IsFraction(u)
    ensures 0.0 <= e * u <= e
    ensures e > 0.0 ==> e * u < e
  {
    NonNegativeProduct(e, u);
    NonNegativeProduct(e, 1.0 - u);
    if e > 0.0 {
      PositiveProduct(e, 1.0 - u);
    }
  }

  /** Delays strictly increase with the attempt number, for any two attempts. */
  lemma DelaysIncrease(baseDelayMs: real, i: nat, j: nat, u: real, v: real)
    requires baseDelayMs > 0.0 && i < j && IsFraction(u) && IsFraction(v)
    ensures TotalDelay(baseDelayMs, i, u) < TotalDelay(baseDelayMs, j, v)
  {
    BaseDelayDoubles(baseDelayMs, i, j);
  }

  /** The base delay of a later attempt is at least twice that of an earlier one. */
  lemma BaseDelayDoubles(baseDelayMs: real, i: nat, j: nat)
    requires baseDelayMs > 0.0 && i < j
    ensures 2.0 * BaseDelay(baseDelayMs, i) <= BaseDelay(baseDelayMs, j)
  {
    Pow2Doubles(i, j);
    var x, y := Pow2(i) as real, Pow2(j) as real;
    assert 2.0 * x <= y;
    calc {
      2.0 * BaseDelay(baseDelayMs, i);
      2.0 * (baseDelayMs * x);
      baseDelayMs * (2.0 * x);
    <= { ScaleMonotone(baseDelayMs, 2.0 * x, y); }
      baseDelayMs * y;
      BaseDelay(baseDelayMs, j);
    }
  }

  /** Multiplying by a positive factor keeps the order. */
  lemma ScaleMonotone(b: real, x: real, y: real)
    requires b > 0.0 && x <= y
    ensures b * x <= b * y
  {
    NonNegativeProduct(b, y - x);
  }
}
