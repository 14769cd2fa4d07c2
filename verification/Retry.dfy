/** `retry_call`: any operation is tried again after the errors it is told to retry, up to a limit, with
    an exponential backoff. */
module Retry {
  import opened Wrappers

  function Pow2(n: nat): nat {
    if n == 0 then 1 else 2 * Pow2(n - 1)
  }

  // The pauses of the exponential backoff, and their sum.
  function Delay(base: real, i: nat): real {
    base * Pow2(i) as real
  }

  function Total(sleeps: seq<real>): real {
    if sleeps == [] then 0.0 else Total(sleeps[..|sleeps| - 1]) + sleeps[|sleeps| - 1]
  }

  // ----- The number of attempts -----

  /** n is the number of attempts of a call: every attempt before the n-th asks for another one, and the
      n-th does not or is the last one allowed. */
  ghost predicate IsAttempts(again: nat -> bool, maxAttempts: nat, n: nat) {
    && 1 <= n <= maxAttempts
    && (forall i :: 0 <= i < n - 1 ==> again(i))
    && (n == maxAttempts || !again(n - 1))
  }

  // The smaller of the limit and one more than the index of the first attempt that asks for no other.
  function AttemptsFrom(again: nat -> bool, i: nat, maxAttempts: nat): (n: nat)
    requires i < maxAttempts
    ensures i < n <= maxAttempts
    decreases maxAttempts - i
  {
    if i + 1 == maxAttempts || !again(i) then i + 1 else AttemptsFrom(again, i + 1, maxAttempts)
  }

  lemma {:induction false} AttemptsAreAttempts(again: nat -> bool, i: nat, maxAttempts: nat)
    requires i < maxAttempts && forall j :: 0 <= j < i ==> again(j)
    ensures IsAttempts(again, maxAttempts, AttemptsFrom(again, i, maxAttempts))
    decreases maxAttempts - i
  {
    if i + 1 < maxAttempts && again(i) {
      AttemptsAreAttempts(again, i + 1, maxAttempts);
    }
  }

  lemma {:induction false} AttemptsAreUnique(again: nat -> bool, i: nat, maxAttempts: nat, n: nat)
    requires IsAttempts(again, maxAttempts, n) && i < n
    ensures AttemptsFrom(again, i, maxAttempts) == n
    decreases n - i
  {
    if i + 1 < n {
      AttemptsAreUnique(again, i + 1, maxAttempts, n);
    }
  }

  /** The number of attempts is determined by how they end. */
  lemma AttemptsIff(again: nat -> bool, maxAttempts: nat, n: nat)
    requires maxAttempts >= 1
    ensures IsAttempts(again, maxAttempts, n) <==> n == AttemptsFrom(again, 0, maxAttempts)
  {
    AttemptsAreAttempts(again, 0, maxAttempts);
    if IsAttempts(again, maxAttempts, n) {
      AttemptsAreUnique(again, 0, maxAttempts, n);
    }
  }

  /** It is the smaller of the limit and one more than the index of the first attempt that asks for no
      other; without one it is the limit. */
  lemma AttemptsIsMinimum(again: nat -> bool, maxAttempts: nat, first: nat)
    requires maxAttempts >= 1 && forall i: nat :: i < first ==> again(i)
    ensures !again(first) ==>
              AttemptsFrom(again, 0, maxAttempts) == if first + 1 <= maxAttempts then first + 1 else maxAttempts
    ensures first >= maxAttempts ==> AttemptsFrom(again, 0, maxAttempts) == maxAttempts
  {
    if first >= maxAttempts {
      AttemptsAreUnique(again, 0, maxAttempts, maxAttempts);
    } else if !again(first) {
      AttemptsAreUnique(again, 0, maxAttempts, first + 1);
    }
  }

  // ----- The sleeps -----

  lemma Pow2Monotone(i: nat, j: nat)
    requires i <= j
    ensures Pow2(i) <= Pow2(j)
  {
    if i < j {
      Pow2Monotone(i, j - 1);
    }
  }

  lemma {:induction false} GeometricTotal(base: real, sleeps: seq<real>)
    requires forall i :: 0 <= i < |sleeps| ==> sleeps[i] == Delay(base, i)
    ensures Total(sleeps) == base * (Pow2(|sleeps|) as real - 1.0)
  {
    var n := |sleeps|;
    if n > 0 {
      GeometricTotal(base, sleeps[..n - 1]);
      assert Pow2(n) as real == 2.0 * Pow2(n - 1) as real;
    }
  }

  /** A call that makes n attempts sleeps base * (2^(n-1) - 1) in all, and never more than
      base * (2^(maxAttempts-1) - 1). */
  lemma BackoffTotal(base: real, sleeps: seq<real>, n: nat, maxAttempts: nat)
    requires 1 <= n <= maxAttempts && |sleeps| == n - 1 && base >= 0.0
    requires forall i :: 0 <= i < |sleeps| ==> sleeps[i] == Delay(base, i)
    ensures Total(sleeps) == base * (Pow2(n - 1) as real - 1.0)
    ensures Total(sleeps) <= base * (Pow2(maxAttempts - 1) as real - 1.0)
  {
    GeometricTotal(base, sleeps);
    Pow2Monotone(n - 1, maxAttempts - 1);
    RealProduct(base, Pow2(n - 1) as real - 1.0, Pow2(maxAttempts - 1) as real - 1.0);
  }

  lemma RealProduct(a: real, x: real, y: real)
    requires a >= 0.0 && x <= y
    ensures a * x <= a * y
  {
  }

  function Delays(base: real, n: nat): seq<real> {
    seq(n, (i: nat) => Delay(base, i))
  }

  /** The i-th pause is the base delay, doubled i times; they are as many as asked for. */
  lemma DelaysAre(base: real, n: nat, i: nat)
    requires i < n
    ensures |Delays(base, n)| == n && Delays(base, n)[0] == base
    ensures i + 1 < n ==> Delays(base, n)[i + 1] == 2.0 * Delays(base, n)[i]
  {
    assert Pow2(0) == 1 && Pow2(i + 1) == 2 * Pow2(i);
  }

  lemma OneMoreDelay(base: real, n: nat)
    ensures Delays(base, n + 1) == Delays(base, n) + [Delay(base, n)]
  {
  }

  // ----- The loop -----

  datatype RetryError<E> = TooFewAttempts | Raised(error: E)

  // Whether the attempt with this index, counted from the p-th call, ended in an error to retry.
  function Retryable<T, E>(outcomes: nat -> Result<T, E>, p: nat, retryOn: E -> bool): nat -> bool {
    (i: nat) => outcomes(p + i).Failure? && retryOn(outcomes(p + i).error)
  }

  /** An operation whose n-th call, of all calls ever made, ends in the n-th outcome. */
  class Operation<T, E> {
    const outcomes: nat -> Result<T, E>

    var calls: nat
    var sleeps: seq<real>

    constructor (outcomes: nat -> Result<T, E>)
      ensures this.outcomes == outcomes && calls == 0 && sleeps == []
    {
      this.outcomes := outcomes;
      calls, sleeps := 0, [];
    }

    method Call() returns (r: Result<T, E>)
      modifies this`calls
      ensures r == outcomes(old(calls)) && calls == old(calls) + 1
    {
      r := outcomes(calls);
      calls := calls + 1;
    }

    /** How often the operation is called, how long the pauses are, and what the call ends in. */
    method RetryCall(retryOn: E -> bool, maxAttempts: int, baseDelay: real) returns (r: Result<T, RetryError<E>>)
      modifies this
      ensures maxAttempts < 1 ==>
                r == Failure(TooFewAttempts) && calls == old(calls) && sleeps == old(sleeps)
      ensures maxAttempts >= 1 ==>
                && old(calls) < calls <= old(calls) + maxAttempts
                && IsAttempts(Retryable(outcomes, old(calls), retryOn), maxAttempts, calls - old(calls))
                && (forall i :: old(calls) <= i < calls - 1 ==> outcomes(i).Failure? && retryOn(outcomes(i).error))
                && var last := outcomes(calls - 1);
                   && (last.Failure? && retryOn(last.error) ==> calls == old(calls) + maxAttempts)
                   && r == (if last.Success? then Success(last.value) else Failure(Raised(last.error)))
                   && sleeps == old(sleeps) + Delays(baseDelay, calls - old(calls) - 1)
    {
      if maxAttempts < 1 {
        return Failure(TooFewAttempts);
      }
      var attempt := 0;
      while true
        invariant 0 <= attempt < maxAttempts && calls == old(calls) + attempt
        invariant forall i :: old(calls) <= i < calls ==> outcomes(i).Failure? && retryOn(outcomes(i).error)
        invariant sleeps == old(sleeps) + Delays(baseDelay, attempt)
        decreases maxAttempts - attempt
      {
        OneMoreDelay(baseDelay, attempt);
        attempt := attempt + 1;
        var outcome := Call();
        if outcome.Success? {
          return Success(outcome.value);
        }
        if !retryOn(outcome.error) || attempt >= maxAttempts {
          return Failure(Raised(outcome.error));
        }
        sleeps := sleeps + [Delay(baseDelay, attempt - 1)];
      }
    }
  }
}
