/** The summarisation client `generate_gemini_content`: the same request is
    sent up to three times; a quota failure is followed by a sixty-second
    pause and another attempt unless it was the last one, when it is raised;
    any other failure is raised at once; the first success is returned.

    The remote model is not called: its answer to the k-th call is the
    injected `replies[k]`. The pause is recorded as a `Sleep` event in the
    trace instead of passing wall-clock time. */
module Summarizer {

  /** `max_retries`: the number of attempts. */
  const MaxRetries: nat := 3

  /** `retry_delay_sec`: the pause after a quota failure, in seconds. */
  const RetryDelaySec: nat := 60

  /** What the remote model answers one call with. */
  datatype Reply =
    | Success(text: string)    // a response with generated text
    | Quota                    // `ResourceExhausted`
    | Other(detail: string)    // any other exception

  /** How a summarisation ends: text returned, or an exception propagated. */
  datatype Outcome =
    | Returned(text: string)
    | QuotaExceeded
    | Failed(detail: string)

  /** What the client does, in order: a call carrying its request, or a pause. */
  datatype Event = Call(request: string) | Sleep(seconds: nat)

  /** How many calls are made from attempt `attempt` on (0-based), this one
      included. */
  function CallsFrom(replies: seq<Reply>, attempt: nat): (n: nat)
    requires attempt < MaxRetries == |replies|
    ensures 1 <= n <= MaxRetries - attempt
    ensures forall k :: attempt <= k < attempt + n - 1 ==> replies[k] == Quota
    ensures attempt + n < MaxRetries ==> replies[attempt + n - 1] != Quota
    decreases MaxRetries - attempt
  {
    if replies[attempt] == Quota && attempt < MaxRetries - 1 then 1 + CallsFrom(replies, attempt + 1)
    else 1
  }

  /** The number of calls of one summarisation: one more than the number of
      quota failures that are retried, and never more than three. */
  function CallsMade(replies: seq<Reply>): (n: nat)
    requires |replies| == MaxRetries
    ensures 1 <= n <= MaxRetries
    ensures forall k :: 0 <= k < n - 1 ==> replies[k] == Quota
    ensures n < MaxRetries ==> replies[n - 1] != Quota
  {
    CallsFrom(replies, 0)
  }

  /** How the last call's reply ends the summarisation: its text is returned,
      its exception propagated. */
  function Settle(reply: Reply): Outcome
  {
    match reply
    case Success(text) => Returned(text)
    case Quota => QuotaExceeded
    case Other(detail) => Failed(detail)
  }

  /** The outcome of one summarisation: what the last call's reply settles. */
  function RetryOutcome(replies: seq<Reply>): Outcome
    requires |replies| == MaxRetries
  {
    Settle(replies[CallsMade(replies) - 1])
  }

  /** The events of n calls: every call after the first follows a pause. */
  function Schedule(request: string, n: nat): (trace: seq<Event>)
    requires n >= 1
  {
    if n == 1 then [Call(request)]
    else Schedule(request, n - 1) + [Sleep(RetryDelaySec), Call(request)]
  }

  /** Number of calls in a trace. */
  function Calls(trace: seq<Event>): nat
  {
    if trace == [] then 0
    else Calls(trace[..|trace| - 1]) + (if trace[|trace| - 1].Call? then 1 else 0)
  }

  /** Number of pauses in a trace. */
  function Sleeps(trace: seq<Event>): nat
  {
    if trace == [] then 0
    else Sleeps(trace[..|trace| - 1]) + (if trace[|trace| - 1].Sleep? then 1 else 0)
  }

  /** `generate_gemini_content(transcript_text, prompt)`. */
  method GenerateContent(transcriptText: string, prompt: string, replies: seq<Reply>)
    returns (outcome: Outcome, trace: seq<Event>)
    requires |replies| == MaxRetries
    ensures outcome == RetryOutcome(replies)
    ensures trace == Schedule(prompt + transcriptText, CallsMade(replies))
  {
    var request := prompt + transcriptText;
    trace := [];
    var attempt := 0;
    // The source loops over `range(max_retries)`; every path through the
    // last attempt returns or raises, so the loop needs no exit condition.
    while true
      invariant 0 <= attempt < MaxRetries
      invariant forall k :: 0 <= k < attempt ==> replies[k] == Quota
      invariant trace + [Call(request)] == Schedule(request, attempt + 1)
      decreases MaxRetries - attempt
    {
      trace := trace + [Call(request)];
      match replies[attempt] {
        case Success(text) =>
          outcome := Returned(text);
          return;
        case Other(detail) =>
          outcome := Failed(detail);
          return;
        case Quota =>
          if attempt < MaxRetries - 1 {
            trace := trace + [Sleep(RetryDelaySec)];
          } else {
            outcome := QuotaExceeded;
            return;
          }
      }
      attempt := attempt + 1;
    }
  }

  // ---------------------------------------------------------------------
  // Lemmas about the retry policy

  /** Shape of a schedule of n calls: 2n - 1 events alternating call and
      pause, every call carrying the same request, ending with a call (no
      pause after the last attempt). */
  lemma {:induction false} ScheduleShape(request: string, n: nat)
    requires n >= 1
    ensures var trace := Schedule(request, n);
            && |trace| == 2 * n - 1
            && trace[|trace| - 1] == Call(request)
            && forall k :: 0 <= k < |trace| ==>
                 trace[k] == if k % 2 == 0 then Call(request) else Sleep(RetryDelaySec)
  {
    if n > 1 {
      ScheduleShape(request, n - 1);
    }
  }

  /** A schedule of n calls holds n calls and n - 1 pauses. */
  lemma {:induction false} ScheduleCounts(request: string, n: nat)
    requires n >= 1
    ensures Calls(Schedule(request, n)) == n
    ensures Sleeps(Schedule(request, n)) == n - 1
  {
    if n > 1 {
      var prev := Schedule(request, n - 1);
      var trace := prev + [Sleep(RetryDelaySec), Call(request)];
      assert trace[..|trace| - 1] == prev + [Sleep(RetryDelaySec)];
      assert (prev + [Sleep(RetryDelaySec)])[..|prev|] == prev;
      ScheduleCounts(request, n - 1);
    }
  }

  /** Calls and pauses of one summarisation: at most three calls, one pause
      fewer than calls, so at most two pauses. */
  lemma CallAndSleepBounds(request: string, replies: seq<Reply>)
    requires |replies| == MaxRetries
    ensures var trace := Schedule(request, CallsMade(replies));
            && 1 <= Calls(trace) <= MaxRetries
            && Sleeps(trace) == Calls(trace) - 1 <= MaxRetries - 1
  {
    ScheduleCounts(request, CallsMade(replies));
  }

  /** The result is returned exactly when some call succeeds after nothing
      but quota failures, and it is that first success's text. */
  lemma FirstSuccessReturned(replies: seq<Reply>, text: string)
    requires |replies| == MaxRetries
    ensures RetryOutcome(replies) == Returned(text) <==>
              exists k :: 0 <= k < MaxRetries && replies[k] == Success(text) &&
                          forall j :: 0 <= j < k ==> replies[j] == Quota
  {
  }

  /** A non-quota failure propagates at once: after nothing but quota
      failures, an `Other` reply ends the summarisation with its own error,
      with no pause after it and no further call. */
  lemma OtherFailsFast(request: string, replies: seq<Reply>, k: nat, detail: string)
    requires |replies| == MaxRetries && k < MaxRetries
    requires replies[k] == Other(detail)
    requires forall j :: 0 <= j < k ==> replies[j] == Quota
    ensures RetryOutcome(replies) == Failed(detail)
    ensures CallsMade(replies) == k + 1
    ensures Sleeps(Schedule(request, CallsMade(replies))) == k
  {
    ScheduleCounts(request, CallsMade(replies));
  }

  /** The quota error propagates exactly when all three calls hit the quota,
      after three calls and two pauses. */
  lemma QuotaExhausted(request: string, replies: seq<Reply>)
    requires |replies| == MaxRetries
    ensures RetryOutcome(replies) == QuotaExceeded <==>
              forall k :: 0 <= k < MaxRetries ==> replies[k] == Quota
    ensures RetryOutcome(replies) == QuotaExceeded ==>
              CallsMade(replies) == MaxRetries &&
              Sleeps(Schedule(request, CallsMade(replies))) == MaxRetries - 1
  {
    var n := CallsMade(replies);
    if forall k :: 0 <= k < MaxRetries ==> replies[k] == Quota {
      assert n == MaxRetries;
    }
    ScheduleCounts(request, n);
  }

  /** Two quota failures and then a success: the text is returned after
      three calls and exactly two pauses. */
  lemma QuotaTwiceThenSuccess(request: string, text: string)
    ensures RetryOutcome([Quota, Quota, Success(text)]) == Returned(text)
    ensures CallsMade([Quota, Quota, Success(text)]) == 3
    ensures Sleeps(Schedule(request, 3)) == 2
  {
    ScheduleCounts(request, 3);
  }
}
