/**
 * The app's circuit breaker: one shared record {state, failureCount,
 * openUntil} guarding both upstream services. The wall clock (Date.now()) is
 * the explicit `now` parameter, in milliseconds.
 *
 * The transitions are first given as functions on a Breaker value; the class
 * Circuit holds the mutable record and its methods are proved to perform
 * exactly those transitions. The lemmas about the functions then say what
 * the breaker promises over any run of calls.
 */
module CircuitBreaker {

  /** Consecutive failures that open the circuit. */
  const FAILURE_THRESHOLD: nat := 3
  /** How long an opened circuit refuses calls, in milliseconds. */
  const OPEN_PERIOD_MS: int := 30000

  datatype Status = Closed | Open

  datatype Breaker = Breaker(state: Status, failureCount: nat, openUntil: int)

  /** The record as the app creates it. */
  const INITIAL: Breaker := Breaker(Closed, 0, 0)

  /** isCircuitOpen: the answer and the record it leaves behind (an expired open period resets the breaker). */
  function Poll(b: Breaker, now: int): (r: (bool, Breaker))
    ensures r.0 <==> b.state == Open && now < b.openUntil
    ensures r.0 ==> r.1 == b
    ensures !r.0 ==> r.1.state != Open
    ensures r.1.openUntil == b.openUntil
  {
    if b.state != Open then (false, b)
    else if now >= b.openUntil then (false, b.(state := Closed, failureCount := 0))
    else (true, b)
  }

  /** recordSuccess: only the failure count is reset. */
  function AfterSuccess(b: Breaker): (r: Breaker)
    ensures r.failureCount == 0
    ensures r.state == b.state && r.openUntil == b.openUntil
  {
    b.(failureCount := 0)
  }

  /** recordFailure: count the failure; at the threshold (re)open until now + 30 s. */
  function AfterFailure(b: Breaker, now: int): (r: Breaker)
    ensures r.failureCount == b.failureCount + 1
    ensures r.state == Open <==> b.state == Open || r.failureCount >= FAILURE_THRESHOLD
    ensures r.openUntil == if r.failureCount >= FAILURE_THRESHOLD then now + OPEN_PERIOD_MS else b.openUntil
  {
    var count := b.failureCount + 1;
    if count >= FAILURE_THRESHOLD then Breaker(Open, count, now + OPEN_PERIOD_MS)
    else b.(failureCount := count)
  }

  /** The invariant the breaker keeps: a closed breaker has seen fewer than three failures in a row. */
  predicate Healthy(b: Breaker) {
    b.state == Closed ==> b.failureCount < FAILURE_THRESHOLD
  }

  /** The three cases of isCircuitOpen. */
  lemma PollCases(b: Breaker, now: int)
    ensures b.state == Closed ==> Poll(b, now) == (false, b)
    ensures b.state == Open && now < b.openUntil ==> Poll(b, now) == (true, b)
    ensures b.state == Open && now >= b.openUntil ==>
              Poll(b, now) == (false, Breaker(Closed, 0, b.openUntil))
  {
  }

  /** recordFailure at the threshold moves openUntil to now + 30 s, even when the circuit is already open. */
  lemma FailureAtThresholdReopens(b: Breaker, now: int)
    requires b.failureCount + 1 >= FAILURE_THRESHOLD
    ensures AfterFailure(b, now) == Breaker(Open, b.failureCount + 1, now + OPEN_PERIOD_MS)
  {
  }

  /** recordSuccess touches neither the state nor the end of the open period. */
  lemma SuccessOnlyResetsCount(b: Breaker)
    ensures AfterSuccess(b) == Breaker(b.state, 0, b.openUntil)
  {
  }

  /** All three operations keep the invariant, and the initial record has it. */
  lemma OperationsKeepHealthy(b: Breaker, now: int)
    requires Healthy(b)
    ensures Healthy(Poll(b, now).1)
    ensures Healthy(AfterSuccess(b))
    ensures Healthy(AfterFailure(b, now))
    ensures Healthy(INITIAL)
  {
  }

  /**
   * Three failures in a row open the circuit whatever the starting record;
   * it then refuses calls until 30 s after the third failure and closes
   * itself, with a zero count, on the first check after that.
   */
  lemma ThreeFailuresOpen(b: Breaker, t1: int, t2: int, t3: int, now: int)
    ensures AfterFailure(AfterFailure(AfterFailure(b, t1), t2), t3).state == Open
    ensures AfterFailure(AfterFailure(AfterFailure(b, t1), t2), t3).openUntil == t3 + OPEN_PERIOD_MS
    ensures Poll(AfterFailure(AfterFailure(AfterFailure(b, t1), t2), t3), now).0 <==> now < t3 + OPEN_PERIOD_MS
    ensures now >= t3 + OPEN_PERIOD_MS ==>
              Poll(AfterFailure(AfterFailure(AfterFailure(b, t1), t2), t3), now).1 == Breaker(Closed, 0, t3 + OPEN_PERIOD_MS)
  {
  }

  /** One call to the breaker, as a trace event. */
  datatype Call = Fail(at: int) | Succeed | Check(at: int)

  function Step(b: Breaker, call: Call): (r: Breaker) {
    match call
    case Fail(at) => AfterFailure(b, at)
    case Succeed => AfterSuccess(b)
    case Check(at) => Poll(b, at).1
  }

  /** The record after a sequence of calls. */
  function Run(b: Breaker, calls: seq<Call>): (r: Breaker) {
    if calls == [] then b else Step(Run(b, calls[..|calls| - 1]), calls[|calls| - 1])
  }

  /** Failures since the last success; checks neither count nor break the streak. */
  function Streak(calls: seq<Call>): (n: nat) {
    if calls == [] then 0
    else
      match calls[|calls| - 1]
      case Fail(_) => Streak(calls[..|calls| - 1]) + 1
      case Succeed => 0
      case Check(_) => Streak(calls[..|calls| - 1])
  }

  /** No prefix of the calls reaches three failures in a row. */
  predicate NeverThreeInARow(calls: seq<Call>) {
    forall k :: 0 <= k <= |calls| ==> Streak(calls[..k]) < FAILURE_THRESHOLD
  }

  /** Every record reachable from the initial one is healthy. */
  lemma {:induction false} ReachableIsHealthy(calls: seq<Call>)
    ensures Healthy(Run(INITIAL, calls))
  {
    if calls != [] {
      var prefix := calls[..|calls| - 1];
      ReachableIsHealthy(prefix);
      var last := calls[|calls| - 1];
      match last
      case Fail(at) => OperationsKeepHealthy(Run(INITIAL, prefix), at);
      case Succeed => OperationsKeepHealthy(Run(INITIAL, prefix), 0);
      case Check(at) => OperationsKeepHealthy(Run(INITIAL, prefix), at);
    }
  }

  /**
   * From the initial record, a run that never has three failures in a row
   * keeps the circuit closed; the count is the current streak and openUntil
   * is never touched.
   */
  lemma {:induction false} ClosedWithoutThreeInARow(calls: seq<Call>)
    requires NeverThreeInARow(calls)
    ensures Run(INITIAL, calls) == Breaker(Closed, Streak(calls), 0)
  {
    if calls != [] {
      var prefix := calls[..|calls| - 1];
      assert NeverThreeInARow(prefix) by {
        forall k | 0 <= k <= |prefix|
          ensures Streak(prefix[..k]) < FAILURE_THRESHOLD
        {
          assert prefix[..k] == calls[..k];
        }
      }
      ClosedWithoutThreeInARow(prefix);
      assert calls[..|calls|] == calls;
    }
  }

  /** The first time a run reaches three failures in a row, the circuit opens for 30 s from that failure. */
  lemma ThirdFailureInARowOpens(calls: seq<Call>, at: int)
    requires NeverThreeInARow(calls)
    requires Streak(calls + [Fail(at)]) == FAILURE_THRESHOLD
    ensures Run(INITIAL, calls + [Fail(at)]) == Breaker(Open, FAILURE_THRESHOLD, at + OPEN_PERIOD_MS)
  {
    var extended := calls + [Fail(at)];
    assert extended[..|extended| - 1] == calls;
    ClosedWithoutThreeInARow(calls);
  }

  lemma {:induction false} StreakPrefixes(calls: seq<Call>, streaks: seq<nat>, k: nat)
    requires |streaks| == |calls| + 1 && streaks[0] == 0
    requires forall i :: 0 <= i < |calls| ==>
               streaks[i + 1] == match calls[i]
                                 case Fail(_) => streaks[i] + 1
                                 case Succeed => 0
                                 case Check(_) => streaks[i]
    requires k <= |calls|
    ensures Streak(calls[..k]) == streaks[k]
  {
    if k > 0 {
      StreakPrefixes(calls, streaks, k - 1);
      assert calls[..k][..k - 1] == calls[..k - 1];
    }
  }

  /** Two failures, a success and two more failures never open the circuit. */
  lemma SuccessBreaksTheStreak(t1: int, t2: int, t3: int, t4: int)
    ensures Run(INITIAL, [Fail(t1), Fail(t2), Succeed, Fail(t3), Fail(t4)]).state == Closed
  {
    var calls := [Fail(t1), Fail(t2), Succeed, Fail(t3), Fail(t4)];
    var streaks := [0, 1, 2, 0, 1, 2];
    forall k | 0 <= k <= |calls|
      ensures Streak(calls[..k]) == streaks[k]
    {
      StreakPrefixes(calls, streaks, k);
    }
    assert NeverThreeInARow(calls);
    ClosedWithoutThreeInARow(calls);
  }

  /** No call in the trace is a recordSuccess (app.js has no call to it). */
  predicate NoSuccess(calls: seq<Call>) {
    forall k :: 0 <= k < |calls| ==> !calls[k].Succeed?
  }

  /** Without successes, an open breaker has seen at least three failures. */
  lemma {:induction false} OpenWithoutSuccessHasThree(calls: seq<Call>)
    requires NoSuccess(calls)
    ensures Run(INITIAL, calls).state == Open ==> Run(INITIAL, calls).failureCount >= FAILURE_THRESHOLD
  {
    if calls != [] {
      var prefix := calls[..|calls| - 1];
      assert NoSuccess(prefix) by {
        forall k | 0 <= k < |prefix|
          ensures !prefix[k].Succeed?
        {
          assert prefix[k] == calls[k];
        }
      }
      OpenWithoutSuccessHasThree(prefix);
      assert !calls[|calls| - 1].Succeed?;
    }
  }

  /** So in app.js every failure while the circuit is open re-opens it until 30 s after that failure. */
  lemma FailureWhileOpenReopens(calls: seq<Call>, at: int)
    requires NoSuccess(calls) && Run(INITIAL, calls).state == Open
    ensures Run(INITIAL, calls + [Fail(at)]) ==
              Breaker(Open, Run(INITIAL, calls).failureCount + 1, at + OPEN_PERIOD_MS)
  {
    OpenWithoutSuccessHasThree(calls);
    assert (calls + [Fail(at)])[..|calls|] == calls;
  }

  /** The shared breaker record that the app mutates in place. */
  class Circuit {
    var state: Status
    var failureCount: nat
    var openUntil: int

    function Snapshot(): (b: Breaker)
      reads this
    {
      Breaker(state, failureCount, openUntil)
    }

    constructor ()
      ensures Snapshot() == INITIAL
    {
      state, failureCount, openUntil := Closed, 0, 0;
    }

    /** isCircuitOpen */
    method IsCircuitOpen(now: int) returns (open: bool)
      modifies this
      ensures (open, Snapshot()) == Poll(old(Snapshot()), now)
      ensures open <==> old(state) == Open && now < old(openUntil)
    {
      if state != Open {
        return false;
      }
      if now >= openUntil {
        state := Closed;
        failureCount := 0;
        return false;
      }
      return true;
    }

    /** recordSuccess */
    method RecordSuccess()
      modifies this
      ensures Snapshot() == AfterSuccess(old(Snapshot()))
    {
      failureCount := 0;
    }

    /** recordFailure */
    method RecordFailure(now: int)
      modifies this
      ensures Snapshot() == AfterFailure(old(Snapshot()), now)
    {
      failureCount := failureCount + 1;
      if failureCount >= FAILURE_THRESHOLD {
        state := Open;
        openUntil := now + OPEN_PERIOD_MS;
      }
    }
  }
}
