/** The retry wrapper `withRetry` of the data-access layer.

    The wrapped operation is abstract: its k-th invocation (counting from 0)
    yields `op(k)`, which is either a resolved value or a thrown error. The
    fixed delay between attempts is not modelled; only the invocations are. */
module Retry {

  /** What one invocation of an asynchronous operation does: resolve with a
      value, or throw an error carrying a message. */
  datatype Outcome<T> = Returned(value: T) | Threw(message: string)

  /** Number of retries granted after the first attempt (MAX_RETRIES). */
  const MAX_RETRIES: nat := 3

  /** What a call of withRetry settles with, and how many invocations of the
      operation have been made when it does. */
  datatype Run<T> = Run(outcome: Outcome<T>, invocations: nat)

  /** The recursion of withRetry, entered after `made` invocations with
      `retries` retries left: invoke once; on a throw with retries left,
      recurse with one retry fewer; otherwise settle with that outcome. */
  function Attempt<T>(op: nat -> Outcome<T>, made: nat, retries: nat): (r: Run<T>)
    ensures made < r.invocations <= made + retries + 1
    ensures r.outcome == op(r.invocations - 1)
    ensures forall k :: made <= k < r.invocations - 1 ==> op(k).Threw?
    ensures r.outcome.Threw? ==> r.invocations == made + retries + 1
    decreases retries
  {
    match op(made)
    case Returned(_) => Run(op(made), made + 1)
    case Threw(_) =>
      if retries > 0 then Attempt(op, made + 1, retries - 1)
      else Run(op(made), made + 1)
  }

  /** withRetry(operation, retries), called before any invocation. */
  function WithRetry<T>(op: nat -> Outcome<T>, retries: nat): Run<T>
  {
    Attempt(op, 0, retries)
  }

  /** With the default budget the operation runs at least once and at most
      MAX_RETRIES + 1 = 4 times. */
  lemma AtMostFourInvocations<T>(op: nat -> Outcome<T>)
    ensures 1 <= WithRetry(op, MAX_RETRIES).invocations <= 4
  {
  }

  /** withRetry resolves exactly when some invocation within the budget
      resolves. */
  lemma {:induction false} ResolvesIff<T>(op: nat -> Outcome<T>, retries: nat)
    ensures WithRetry(op, retries).outcome.Returned?
        <==> exists k :: 0 <= k <= retries && op(k).Returned?
  {
    var r := WithRetry(op, retries);
    if r.outcome.Threw? {
      forall k | 0 <= k <= retries ensures op(k).Threw? {
        if k < r.invocations - 1 {
        } else {
          assert k == r.invocations - 1;
        }
      }
    } else {
      assert op(r.invocations - 1).Returned?;
    }
  }

  /** The first invocation that resolves decides the result, and no further
      invocation is made after it. */
  lemma FirstResolutionWins<T>(op: nat -> Outcome<T>, retries: nat, k: nat)
    requires k <= retries
    requires op(k).Returned?
    requires forall j :: 0 <= j < k ==> op(j).Threw?
    ensures WithRetry(op, retries) == Run(op(k), k + 1)
  {
  }

  /** When every invocation within the budget throws, the operation has run
      retries + 1 times and the last error is rethrown unchanged. */
  lemma AllThrowRethrowsLast<T>(op: nat -> Outcome<T>, retries: nat)
    requires forall k :: 0 <= k <= retries ==> op(k).Threw?
    ensures WithRetry(op, retries) == Run(op(retries), retries + 1)
  {
  }

  /** An operation that fails exactly n - 1 times and then resolves, under a
      budget of n attempts, resolves with that value after n invocations. */
  lemma SucceedsOnLastAttempt<T>(op: nat -> Outcome<T>, n: nat)
    requires 1 <= n
    requires forall j :: 0 <= j < n - 1 ==> op(j).Threw?
    requires op(n - 1).Returned?
    ensures WithRetry(op, n - 1) == Run(op(n - 1), n)
  {
  }

  /** An operation that swallows its errors never throws, so withRetry invokes
      it exactly once: there is never a retry. */
  lemma NeverThrowingRunsOnce<T>(op: nat -> Outcome<T>, retries: nat)
    requires op(0).Returned?
    ensures WithRetry(op, retries) == Run(op(0), 1)
  {
  }

  function Last<T>(trace: seq<Outcome<T>>): Outcome<T>
    requires trace != []
  {
    trace[|trace| - 1]
  }

  /** The outcomes of all invocations made by one complete withRetry call with
      budget `retries`: every one but the last threw, and the last one threw
      only if the budget is spent. */
  predicate IsRun<T>(trace: seq<Outcome<T>>, retries: nat)
  {
    1 <= |trace| <= retries + 1 &&
    (forall k :: 0 <= k < |trace| - 1 ==> trace[k].Threw?) &&
    (Last(trace).Threw? ==> |trace| == retries + 1)
  }

  /** A run that settles on its first invocation. */
  lemma RunOfOne<T>(first: Outcome<T>, retries: nat)
    requires first.Returned? || retries == 0
    ensures IsRun([first], retries)
  {
  }

  /** The recursive step of withRetry on recorded runs: a first invocation
      that threw, followed by a complete run with one retry fewer, is a
      complete run. */
  lemma RunCons<T>(first: Outcome<T>, rest: seq<Outcome<T>>, retries: nat)
    requires first.Threw? && retries > 0 && IsRun(rest, retries - 1)
    ensures IsRun([first] + rest, retries)
    ensures Last([first] + rest) == Last(rest)
  {
    var run := [first] + rest;
    forall k | 0 <= k < |run| - 1 ensures run[k].Threw? {
      if k > 0 {
        assert run[k] == rest[k - 1];
      }
    }
    assert Last(run) == Last(rest);
  }

  /** A recorded run is exactly what the recursion computes for any operation
      whose invocations produced those outcomes; so whatever holds of
      WithRetry holds of every stateful operation proved to record a run. */
  lemma RunIsRecursion<T>(trace: seq<Outcome<T>>, retries: nat, op: nat -> Outcome<T>)
    requires IsRun(trace, retries)
    requires forall k :: 0 <= k < |trace| ==> op(k) == trace[k]
    ensures WithRetry(op, retries) == Run(Last(trace), |trace|)
  {
  }
}
