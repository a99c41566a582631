/** How many attempts fit a job: the retry envelopes of `src/llm.py` and
    `src/resilience.py`, and the synthesizer's corrective second call that is
    bounded by them. Seconds are reals. */
module RetryEnvelope {
  import opened Arithmetic
  import opened Wrappers
  import opened Text

  /** Both `_CALL_CHAIN_BUDGET_FRACTION` and `_RETRY_BUDGET_FRACTION`. */
  const BUDGET_FRACTION: real := 0.75

  function Budget(jobTimeout: int): real {
    jobTimeout as real * BUDGET_FRACTION
  }

  /** `_retry_envelope`: the retries the model client is built with. */
  function ModelRetries(configured: int, timeout: real, jobTimeout: int): int
    requires timeout > 0.0
  {
    Min(configured, Max(1, (Budget(jobTimeout) / timeout).Floor) - 1)
  }

  /** `clamped_retry_envelope`: the retries of an HTTP session. */
  function ClampedRetries(configured: int, timeout: real, budget: real): int {
    var affordable := if timeout > 0.0 then Max(1, (budget / timeout).Floor) else 1;
    Max(0, Min(configured, affordable - 1))
  }

  /** `n` retries of `timeout` seconds each, and the first attempt. */
  function WorstCase(n: int, timeout: real): real {
    (n + 1) as real * timeout
  }

  lemma AttemptsFit(n: int, timeout: real, budget: real)
    requires timeout > 0.0
    ensures n <= (budget / timeout).Floor <==> n as real * timeout <= budget
  {
    var q := budget / timeout;
    assert q * timeout == budget;
    if n as real <= q { Scale(n as real, q, timeout); } else { ScaleStrictly(q, n as real, timeout); }
  }

  lemma Scale(x: real, y: real, k: real)
    requires x <= y && k > 0.0
    ensures x * k <= y * k
  {
    assert (y - x) * k >= 0.0;
  }

  lemma ScaleStrictly(x: real, y: real, k: real)
    requires x < y && k > 0.0
    ensures x * k < y * k
  {
    assert (y - x) * k > 0.0;
  }

  /** The clamp is the best possible: the largest count up to the configured one
      whose worst case fits the budget, and 0 when not even one retry fits. */
  lemma ClampIsLargestThatFits(configured: int, timeout: real, budget: real)
    requires timeout > 0.0 && configured >= 0
    ensures var r := ClampedRetries(configured, timeout, budget);
            && 0 <= r <= configured
            && (r > 0 ==> WorstCase(r, timeout) <= budget)
            && forall n {:trigger WorstCase(n, timeout)} :: r < n <= configured ==> WorstCase(n, timeout) > budget
    ensures ClampedRetries(configured, 0.0, budget) == 0
  {
    var r := ClampedRetries(configured, timeout, budget);
    AttemptsFit(r + 1, timeout, budget);
    forall n {:trigger WorstCase(n, timeout)} | r < n <= configured ensures WorstCase(n, timeout) > budget {
      AttemptsFit(n + 1, timeout, budget);
    }
  }

  /** The two envelopes are one computation exactly when the configured count is
      not negative, which is all that load-time validation lets through. */
  lemma EnvelopesAgree(configured: int, timeout: real, jobTimeout: int)
    requires timeout > 0.0
    ensures ModelRetries(configured, timeout, jobTimeout) == ClampedRetries(configured, timeout, Budget(jobTimeout))
            <==> configured >= 0
  {
  }

  /** One call chain stays inside its share of the job, unless a single attempt
      is already longer than that. */
  lemma ChainFitsJob(configured: int, timeout: real, jobTimeout: int)
    requires timeout > 0.0 && configured >= 0
    ensures var worst := WorstCase(ModelRetries(configured, timeout, jobTimeout), timeout);
            worst <= jobTimeout as real * 0.75 || worst == timeout
  {
    EnvelopesAgree(configured, timeout, jobTimeout);
    ClampIsLargestThatFits(configured, timeout, Budget(jobTimeout));
  }

  // ---- The synthesizer's two calls ----------------------------------------

  /** What a call gives back; `draft` is the reply's draft report as a string. */
  datatype Reply = Unparseable | NotAnObject | Object(draft: string)

  predicate Usable(r: Reply) {
    r.Object? && Strip(r.draft) != ""
  }

  datatype SynthesizerError = NoUsableDraft

  datatype Limits = Limits(retries: int, timeout: real, jobTimeout: int) {
    ghost predicate Valid() {
      retries >= 0 && timeout > 0.0
    }
  }

  /** `_worst_case_call_sec`. */
  function WorstCallSec(l: Limits): real
    requires l.timeout > 0.0
  {
    WorstCase(ModelRetries(l.retries, l.timeout, l.jobTimeout), l.timeout)
  }

  predicate SecondAttemptFits(l: Limits, elapsed: real)
    requires l.timeout > 0.0
  {
    elapsed + WorstCallSec(l) <= Budget(l.jobTimeout)
  }

  /** `_call_with_one_retry`, with the model's two replies and the time each
      takes as arguments; `prompts` is what was actually sent. */
  method CallWithOneRetry(userPrompt: string, nudge: string, l: Limits, replies: seq<Reply>, took: seq<real>)
    returns (r: Result<string, SynthesizerError>, prompts: seq<string>)
    requires l.Valid() && |replies| == 2 && |took| == 2
    ensures 1 <= |prompts| <= 2 && prompts[0] == userPrompt
    ensures |prompts| == 2 <==>
              && !(replies[0].Object? && Strip(replies[0].draft) != "")
              && took[0] + WorstCallSec(l) <= l.jobTimeout as real * 0.75
    ensures |prompts| == 2 ==> prompts[1] == userPrompt + "\n\n" + nudge
    ensures r.Success? <==> replies[|prompts| - 1].Object? && Strip(replies[|prompts| - 1].draft) != ""
    ensures r.Success? ==> r.value == replies[|prompts| - 1].draft
    ensures |prompts| == 2 && took[1] <= WorstCallSec(l) ==> took[0] + took[1] <= l.jobTimeout as real * 0.75
  {
    var prompt := userPrompt;
    prompts := [];
    var elapsed := 0.0;
    for attempt := 0 to 2
      invariant |prompts| == attempt
      invariant attempt > 0 ==> prompts[0] == userPrompt && elapsed == took[0]
      invariant attempt > 0 ==> !Usable(replies[0]) && SecondAttemptFits(l, took[0])
      invariant attempt > 1 ==> prompts[1] == userPrompt + "\n\n" + nudge && !Usable(replies[1])
      invariant prompt == if attempt == 0 then userPrompt else userPrompt + "\n\n" + nudge
    {
      prompts := prompts + [prompt];
      var parsed := if replies[attempt].Object? then replies[attempt].draft else "";
      if Strip(parsed) != "" {
        return Success(parsed), prompts;
      }
      if attempt == 0 {
        elapsed := took[0];
        if !SecondAttemptFits(l, elapsed) {
          break;
        }
        prompt := userPrompt + "\n\n" + nudge;
      }
    }
    return Failure(NoUsableDraft), prompts;
  }

  /** The time of the whole node, when every call respects its worst case: within
      the budget, or within a single attempt longer than the budget. */
  lemma NodeFitsJob(l: Limits, first: real, second: real)
    requires l.Valid() && first <= WorstCallSec(l) && second <= WorstCallSec(l)
    ensures var total := first + if SecondAttemptFits(l, first) then second else 0.0;
            total <= l.jobTimeout as real * 0.75 || total <= l.timeout
  {
    ChainFitsJob(l.retries, l.timeout, l.jobTimeout);
  }
}
