/**
 * The adaptive delay of `bgg_getter` (generate_pdf.py:110-138): the pair
 * `config.sleep_time` / `config.successful_responses` and how a non-200 or a
 * 200 answer updates it. The HTTP request, the error-message extraction and
 * the `sleep` calls are not modelled; the retry loop is driven by the sequence
 * of status codes the upstream answers with.
 */
module Backoff {

  /** Literal lower bound applied when the delay is halved (not the configured minimum). */
  const HalvingFloor: real := 10.0
  /** The delay is halved whenever the success counter reaches a multiple of this. */
  const HalvingPeriod: nat := 15
  /** The only status code the retry loop accepts. */
  const StatusOk: int := 200

  /** The backoff variables: `sleep_time` (a float once halved, so a real here) and `successful_responses`. */
  datatype State = State(delay: real, successes: nat)

  /** Python's `min(a, b)`: `a` unless `b` is strictly smaller. */
  function Min(a: real, b: real): real {
    if b < a then b else a
  }

  /** Python's `max(a, b)`: `a` unless `b` is strictly larger. */
  function Max(a: real, b: real): real {
    if b > a then b else a
  }

  /** `d` doubled `n` times, i.e. d * 2^n. */
  function Doubled(d: real, n: nat): (r: real)
    ensures 0.0 <= d ==> d <= r
  {
    if n == 0 then d else 2.0 * Doubled(d, n - 1)
  }

  /** A non-200 answer: double, cap at the maximum, reset the counter. */
  function AfterFailure(s: State, maxDelay: real): (t: State)
    ensures t.successes == 0
    ensures t.delay <= maxDelay && t.delay <= 2.0 * s.delay
    ensures t.delay == maxDelay || t.delay == 2.0 * s.delay
  {
    State(Min(maxDelay, s.delay * 2.0), 0)
  }

  /** A 200 answer: count it; on every multiple of 15 halve the delay, but not below 10. */
  function AfterSuccess(s: State): (t: State)
    ensures t.successes == s.successes + 1
    ensures t.successes % HalvingPeriod != 0 ==> t.delay == s.delay
    ensures t.successes % HalvingPeriod == 0 ==>
      t.delay >= HalvingFloor && t.delay >= s.delay / 2.0 &&
      (t.delay == HalvingFloor || t.delay == s.delay / 2.0)
  {
    var n := s.successes + 1;
    State(if n % HalvingPeriod == 0 then Max(HalvingFloor, s.delay / 2.0) else s.delay, n)
  }

  /** One answer: `true` for status 200, `false` for anything else. */
  function Step(s: State, ok: bool, maxDelay: real): State {
    if ok then AfterSuccess(s) else AfterFailure(s, maxDelay)
  }

  /** The state after a sequence of answers. */
  function Run(s: State, outcomes: seq<bool>, maxDelay: real): State {
    if outcomes == [] then s
    else Step(Run(s, outcomes[..|outcomes| - 1], maxDelay), outcomes[|outcomes| - 1], maxDelay)
  }

  function Failures(n: nat): (o: seq<bool>)
    ensures |o| == n && forall i :: 0 <= i < n ==> !o[i]
  {
    if n == 0 then [] else Failures(n - 1) + [false]
  }

  function Successes(n: nat): (o: seq<bool>)
    ensures |o| == n && forall i :: 0 <= i < n ==> o[i]
  {
    if n == 0 then [] else Successes(n - 1) + [true]
  }

  /** The delays slept through, in order, during `n` consecutive failures starting from `s`. */
  function Waits(s: State, n: nat, maxDelay: real): (w: seq<real>)
    ensures |w| == n
  {
    if n == 0 then [] else Waits(s, n - 1, maxDelay) + [Run(s, Failures(n - 1), maxDelay).delay]
  }

  /** After k >= 1 consecutive failures the delay is the start delay times 2^k, capped at the maximum. */
  lemma {:induction false} ConsecutiveFailures(s: State, k: nat, maxDelay: real)
    requires 0.0 <= s.delay && 0.0 <= maxDelay && k >= 1
    ensures Run(s, Failures(k), maxDelay).delay == Min(maxDelay, Doubled(s.delay, k))
    ensures Run(s, Failures(k), maxDelay).successes == 0
  {
    assert Failures(k)[..k - 1] == Failures(k - 1);
    if k == 1 {
      assert Failures(0) == [];
    } else {
      ConsecutiveFailures(s, k - 1, maxDelay);
      var prev := Run(s, Failures(k - 1), maxDelay);
      assert Run(s, Failures(k), maxDelay) == AfterFailure(prev, maxDelay);
      var d := Doubled(s.delay, k - 1);
      assert Min(maxDelay, Min(maxDelay, d) * 2.0) == Min(maxDelay, 2.0 * d);
    }
  }

  /** The waits of a failure streak: first the current delay, then the doubled and capped ones. */
  lemma WaitsDouble(s: State, n: nat, maxDelay: real)
    requires 0.0 <= s.delay && 0.0 <= maxDelay
    ensures forall j :: 0 <= j < n ==>
      Waits(s, n, maxDelay)[j] == if j == 0 then s.delay else Min(maxDelay, Doubled(s.delay, j))
  {
    forall j | 0 <= j < n
      ensures Waits(s, n, maxDelay)[j] == if j == 0 then s.delay else Min(maxDelay, Doubled(s.delay, j))
    {
      WaitsPrefix(s, n, j + 1, maxDelay);
      assert Waits(s, j + 1, maxDelay)[j] == Run(s, Failures(j), maxDelay).delay;
      if j > 0 {
        ConsecutiveFailures(s, j, maxDelay);
      }
    }
  }

  lemma {:induction false} WaitsPrefix(s: State, n: nat, m: nat, maxDelay: real)
    requires m <= n
    ensures Waits(s, n, maxDelay)[..m] == Waits(s, m, maxDelay)
  {
    if m < n {
      WaitsPrefix(s, n - 1, m, maxDelay);
      assert Waits(s, n, maxDelay)[..n - 1] == Waits(s, n - 1, maxDelay);
    }
  }

  /** Fewer than 15 successes after a multiple of 15 leave the delay alone. */
  lemma {:induction false} SuccessesBeforeHalving(s: State, k: nat)
    requires s.successes % HalvingPeriod == 0 && k < HalvingPeriod
    ensures forall maxDelay: real :: Run(s, Successes(k), maxDelay) == State(s.delay, s.successes + k)
  {
    forall maxDelay: real ensures Run(s, Successes(k), maxDelay) == State(s.delay, s.successes + k) {
      if k > 0 {
        SuccessesBeforeHalving(s, k - 1);
        assert Successes(k)[..k - 1] == Successes(k - 1);
        assert (s.successes + k) % HalvingPeriod == k;
      }
    }
  }

  /**
   * Fifteen successes in a row, counted from a multiple of 15, halve the delay once
   * (floored at 10). The counter keeps counting: it is not reset to 0.
   */
  lemma FifteenSuccessesHalve(s: State, maxDelay: real)
    requires s.successes % HalvingPeriod == 0
    ensures Run(s, Successes(15), maxDelay) == State(Max(HalvingFloor, s.delay / 2.0), s.successes + 15)
  {
    SuccessesBeforeHalving(s, 14);
    assert Successes(15)[..14] == Successes(14);
  }

  /** The band the delay stays in: positive, and never above the larger of the maximum and 10. */
  predicate InBand(d: real, maxDelay: real) {
    0.0 < d <= Max(maxDelay, HalvingFloor)
  }

  /** No sequence of answers takes a delay out of the band. */
  lemma {:induction false} RunStaysInBand(s: State, outcomes: seq<bool>, maxDelay: real)
    requires 0.0 < maxDelay && InBand(s.delay, maxDelay)
    ensures InBand(Run(s, outcomes, maxDelay).delay, maxDelay)
  {
    if outcomes != [] {
      RunStaysInBand(s, outcomes[..|outcomes| - 1], maxDelay);
    }
  }

  /**
   * As written, with a configured maximum below 10, every halving lifts the
   * delay to at least 10, above that maximum.
   */
  lemma HalvingCanExceedMaximum(s: State, maxDelay: real)
    requires maxDelay < HalvingFloor && (s.successes + 1) % HalvingPeriod == 0
    ensures AfterSuccess(s).delay > maxDelay
  {
  }

  /**
   * As written, a halving ignores a configured minimum above 10: a delay below
   * twice that minimum is halved to below it.
   */
  lemma HalvingIgnoresMinimum(s: State, minDelay: real)
    requires HalvingFloor < minDelay && s.delay < 2.0 * minDelay && (s.successes + 1) % HalvingPeriod == 0
    ensures AfterSuccess(s).delay < minDelay
  {
  }

  /** The position of the first 200 among the answers. */
  function FirstOk(statuses: seq<int>): (k: nat)
    requires StatusOk in statuses
    ensures k < |statuses| && statuses[k] == StatusOk
    ensures StatusOk !in statuses[..k]
  {
    if statuses[0] == StatusOk then 0
    else
      var k' := FirstOk(statuses[1..]);
      assert statuses[..k' + 1] == [statuses[0]] + statuses[1..][..k'];
      k' + 1
  }

  /** A 200 no later than the first one is the first one. */
  lemma FirstOkAt(statuses: seq<int>, a: nat)
    requires StatusOk in statuses && a <= FirstOk(statuses) && statuses[a] == StatusOk
    ensures a == FirstOk(statuses)
  {
    var k := FirstOk(statuses);
    assert forall i :: 0 <= i < k ==> statuses[..k][i] == statuses[i];
  }

  /** One more failure of a streak: its wait is the current delay, and the state takes one more failure step. */
  lemma FailureStep(s0: State, n: nat, maxDelay: real, cur: State, waits: seq<real>)
    requires cur == Run(s0, Failures(n), maxDelay) && waits == Waits(s0, n, maxDelay)
    ensures AfterFailure(cur, maxDelay) == Run(s0, Failures(n + 1), maxDelay)
    ensures waits + [cur.delay] == Waits(s0, n + 1, maxDelay)
  {
    assert Failures(n + 1)[..n] == Failures(n);
  }

  /** The process-wide backoff variables held in `config`. */
  class Backoff {
    var sleepTime: real
    var successfulResponses: nat
    const sleepTimeMax: real

    /** `config.__init__` (the `--minsleep` / `--maxsleep` values, default 10 and 120). */
    constructor (minSleep: int, maxSleep: int)
      ensures sleepTime == minSleep as real && sleepTimeMax == maxSleep as real
      ensures successfulResponses == 0
    {
      sleepTime := minSleep as real;
      sleepTimeMax := maxSleep as real;
      successfulResponses := 0;
    }

    function Current(): State
      reads this
    {
      State(sleepTime, successfulResponses)
    }

    /** The non-200 branch: the wait used is the delay before the update. */
    method OnFailure() returns (wait: real)
      modifies this
      ensures wait == old(sleepTime)
      ensures Current() == AfterFailure(old(Current()), sleepTimeMax)
      ensures sleepTime <= sleepTimeMax && successfulResponses == 0
    {
      wait := sleepTime;
      sleepTime := sleepTime * 2.0;
      sleepTime := Min(sleepTimeMax, sleepTime);
      successfulResponses := 0;
    }

    /** The 200 branch. */
    method OnSuccess()
      modifies this
      ensures Current() == AfterSuccess(old(Current()))
    {
      successfulResponses := successfulResponses + 1;
      if successfulResponses % HalvingPeriod == 0 {
        sleepTime := sleepTime / 2.0;
        sleepTime := Max(HalvingFloor, sleepTime);
      }
    }

    /** The failure branch within a streak of `n` failures: its wait is appended to the waits so far. */
    method FailedAttempt(ghost s0: State, ghost n: nat, waits: seq<real>) returns (waits': seq<real>)
      requires Current() == Run(s0, Failures(n), sleepTimeMax) && waits == Waits(s0, n, sleepTimeMax)
      modifies this
      ensures Current() == Run(s0, Failures(n + 1), sleepTimeMax)
      ensures waits' == Waits(s0, n + 1, sleepTimeMax)
    {
      ghost var cur := Current();
      var w := OnFailure();
      FailureStep(s0, n, sleepTimeMax, cur, waits);
      waits' := waits + [w];
    }

    /**
     * The retry loop: `statuses` are the codes the upstream answers with, in order.
     * The loop stops at the first 200; it only ever returns if such an answer comes.
     */
    method Get(statuses: seq<int>) returns (attempts: nat, waits: seq<real>)
      requires StatusOk in statuses
      modifies this
      ensures 1 <= attempts <= |statuses| && statuses[attempts - 1] == StatusOk
      ensures StatusOk !in statuses[..attempts - 1]
      ensures waits == Waits(old(Current()), attempts - 1, sleepTimeMax)
      ensures Current() == AfterSuccess(Run(old(Current()), Failures(attempts - 1), sleepTimeMax))
    {
      ghost var s0 := Current();
      waits := [];
      var status := statuses[0];
      attempts := 1;
      ghost var n: nat := 0;
      while status != StatusOk
        invariant attempts == n + 1 && n <= FirstOk(statuses) && status == statuses[n]
        invariant Current() == Run(s0, Failures(n), sleepTimeMax)
        invariant waits == Waits(s0, n, sleepTimeMax)
        decreases FirstOk(statuses) - n
      {
        waits := FailedAttempt(s0, n, waits);
        status := statuses[attempts];
        attempts := attempts + 1;
        n := n + 1;
      }
      FirstOkAt(statuses, n);
      OnSuccess();
    }
  }
}
