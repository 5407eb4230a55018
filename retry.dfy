/**
 * `_callServiceWithRetry` (grok-code-fast-card.js, lines 530-544): up to
 * `retries` attempts at the remote call, with a wait of `delay * (i + 1)`
 * milliseconds after failed attempt `i` (counting from 0). The wait grows
 * linearly with the attempt number, although the comment on the constant
 * (line 42) calls it exponential.
 *
 * The remote call is the parameter `outcome`: what attempt `i` would give.
 * The waits and the banners are recorded instead of performed.
 */
module Retry {
  import Js
  import opened Notices

  /** What a failed remote call throws: its `message` and its `JSON.stringify` form. */
  datatype ServiceError = ServiceError(message: string, serialized: string)

  /** The result of one attempt of the remote call. */
  datatype Outcome = Succeeded(response: Js.Value) | Failed(error: ServiceError)

  /**
   * What the retry loop settles on: the first success, the last failure
   * rethrown, or (for `retries <= 0`, when the loop body never runs) the
   * `undefined` the async function then resolves to.
   */
  datatype CallResult = Returned(response: Js.Value) | Threw(error: ServiceError) | NoAttempt

  /** The waits after the first `n` failures: `delay * 1, ..., delay * n`. */
  function Backoff(delay: int, n: nat): (w: seq<int>)
    ensures |w| == n && forall j :: 0 <= j < n ==> w[j] == delay * (j + 1)
  {
    seq(n, j => delay * (j + 1))
  }

  const RetryPrefix: string := "Network error. Retrying... (Attempt "

  /** The warning shown before retrying after failed attempt number `attempt` (counting from 1). */
  function RetryNotice(attempt: nat, waitMs: int): (n: Notice)
    ensures n.level == Warning && n.durationMs == waitMs
    ensures var p := RetryPrefix;
      && |n.message| > |p| + 1 && n.message[..|p|] == p && n.message[|n.message| - 1] == ')'
      && forall k :: |p| <= k < |n.message| - 1 ==> '0' <= n.message[k] <= '9'
  {
    Notice(RetryPrefix + NatToString(attempt) + ")", Warning, waitMs)
  }

  /** One warning per wait, in order. */
  function RetryNotices(waits: seq<int>): (ns: seq<Notice>)
    ensures |ns| == |waits| && forall j :: 0 <= j < |waits| ==> ns[j] == RetryNotice(j + 1, waits[j])
  {
    seq(|waits|, j requires 0 <= j < |waits| => RetryNotice(j + 1, waits[j]))
  }

  /** One more failure adds its wait at the end. */
  lemma BackoffStep(delay: int, n: nat)
    ensures Backoff(delay, n + 1) == Backoff(delay, n) + [delay * (n + 1)]
  {
    assert Backoff(delay, n + 1)[..n] == Backoff(delay, n);
  }

  /** One more wait adds its warning at the end. */
  lemma RetryNoticesStep(waits: seq<int>, w: int)
    ensures RetryNotices(waits + [w]) == RetryNotices(waits) + [RetryNotice(|waits| + 1, w)]
  {
    assert RetryNotices(waits + [w])[..|waits|] == RetryNotices(waits);
  }

  /** How a run of the retry loop settles: its result and the number of calls it made. */
  datatype Settled = Settled(result: CallResult, attempts: nat)

  /**
   * The run of the loop from attempt `i` on, as a recursive definition: the
   * first success at or after `i`, or the failure of the last attempt.
   */
  function SettleFrom(outcome: nat -> Outcome, retries: nat, i: nat): (s: Settled)
    requires i < retries
    ensures i < s.attempts <= retries && s.result != NoAttempt
    ensures forall j :: i <= j < s.attempts - 1 ==> outcome(j).Failed?
    ensures s.result.Returned? ==> outcome(s.attempts - 1) == Succeeded(s.result.response)
    ensures s.result.Threw? ==> s.attempts == retries && outcome(s.attempts - 1) == Failed(s.result.error)
    decreases retries - i
  {
    match outcome(i)
    case Succeeded(response) => Settled(Returned(response), i + 1)
    case Failed(error) =>
      if i == retries - 1 then Settled(Threw(error), i + 1) else SettleFrom(outcome, retries, i + 1)
  }

  /** The whole run: nothing at all when `retries <= 0`. */
  function Settle(outcome: nat -> Outcome, retries: int): (s: Settled)
    ensures s.result == NoAttempt <==> retries <= 0
    ensures retries <= 0 ==> s.attempts == 0
    ensures retries > 0 ==> 1 <= s.attempts <= retries
    ensures forall j :: 0 <= j < s.attempts - 1 ==> outcome(j).Failed?
    ensures s.result.Returned? ==> outcome(s.attempts - 1) == Succeeded(s.result.response)
    ensures s.result.Threw? ==> s.attempts == retries && outcome(s.attempts - 1) == Failed(s.result.error)
  {
    if retries <= 0 then Settled(NoAttempt, 0) else SettleFrom(outcome, retries, 0)
  }

  /**
   * The loop of lines 531-543. It settles as `Settle` says (`attempts` is
   * the number of calls made: every call but the last failed, and the last
   * one's success is returned or, for call number `retries`, its failure
   * rethrown), and a wait and a warning come between consecutive calls.
   */
  method CallWithRetry(outcome: nat -> Outcome, retries: int, delay: int)
    returns (result: CallResult, attempts: nat, waits: seq<int>, notices: seq<Notice>)
    ensures Settled(result, attempts) == Settle(outcome, retries)
    ensures result == NoAttempt ==> waits == []
    ensures result != NoAttempt ==> waits == Backoff(delay, attempts - 1)
    ensures notices == RetryNotices(waits)
  {
    result, attempts, waits, notices := NoAttempt, 0, [], [];
    var i: nat := 0;
    while i < retries
      invariant retries > 0 ==> i < retries
      invariant retries <= 0 ==> i == 0
      invariant attempts == i
      invariant forall j :: 0 <= j < i ==> outcome(j).Failed?
      invariant waits == Backoff(delay, i)
      invariant notices == RetryNotices(waits)
      invariant result == NoAttempt
      invariant retries > 0 ==> Settle(outcome, retries) == SettleFrom(outcome, retries, i)
    {
      attempts := i + 1;
      match outcome(i)
      case Succeeded(response) =>
        result := Returned(response);
        return;
      case Failed(error) =>
        if i == retries - 1 {
          result := Threw(error);
          return;
        }
        var nextAttemptIn := delay * (i + 1);
        BackoffStep(delay, i);
        RetryNoticesStep(waits, nextAttemptIn);
        waits := waits + [nextAttemptIn];
        notices := notices + [RetryNotice(i + 1, nextAttemptIn)];
        i := i + 1;
    }
  }

  /**
   * Three attempts with a base delay of 1000 ms against a call that fails
   * twice and then succeeds: the waits are exactly 1000 ms and 2000 ms and
   * the success is returned.
   */
  method TwoFailuresThenSuccess(error: ServiceError, response: Js.Value)
    returns (result: CallResult, waits: seq<int>)
    ensures result == Returned(response)
    ensures waits == [1000, 2000]
  {
    var outcome := (i: nat) => if i < 2 then Failed(error) else Succeeded(response);
    var attempts, notices;
    result, attempts, waits, notices := CallWithRetry(outcome, 3, 1000);
    assert outcome(0).Failed? && outcome(1).Failed?;
    assert attempts == 3;
  }

  /** Three failures out of three attempts: the third failure is rethrown after two waits. */
  method ThreeFailures(e0: ServiceError, e1: ServiceError, e2: ServiceError)
    returns (result: CallResult, attempts: nat, waits: seq<int>)
    ensures result == Threw(e2)
    ensures attempts == 3 && waits == [1000, 2000]
  {
    var outcome := (i: nat) => if i == 0 then Failed(e0) else if i == 1 then Failed(e1) else Failed(e2);
    var notices;
    result, attempts, waits, notices := CallWithRetry(outcome, 3, 1000);
  }
}
