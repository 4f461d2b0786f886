/**
 * The generative-model backend as the services see it: the Llama 3 prompt
 * frame, the reply to one `invoke_model` call, and the bounded retry loop
 * (`for _ in range(3)`) that each service runs with its own policy.
 */
module Backend {
  import opened Wrappers
  import opened Text

  /** Attempts per request in every retrying service. */
  const MaxAttempts: nat := 3

  const PromptHeader := "<|begin_of_text|><|start_header_id|>user<|end_header_id|>\n\n"
  const PromptTrailer := "\n<|start_header_id|>assistant<|end_header_id|>\n\n"

  /** `format_llama3_prompt`: the user prompt between the fixed Llama 3 header and trailer. */
  function FormatPrompt(userPrompt: string): (p: string)
    ensures StartsWith(p, PromptHeader) && EndsWith(p, PromptTrailer)
    ensures |p| == |PromptHeader| + |userPrompt| + |PromptTrailer|
    ensures p[|PromptHeader|..|p| - |PromptTrailer|] == userPrompt
  {
    PromptHeader + userPrompt + PromptTrailer
  }

  /** Two different user prompts never give the same framed prompt. */
  lemma FormatPromptInjective(a: string, b: string)
    requires FormatPrompt(a) == FormatPrompt(b)
    ensures a == b
  {
    var pa, pb := FormatPrompt(a), FormatPrompt(b);
    assert a == pa[|PromptHeader|..|pa| - |PromptTrailer|];
  }

  /**
   * What one backend call gives back: the `generation` field of the response
   * body (the empty string when the field is missing), or the message of the
   * exception raised by the call or by decoding its body.
   */
  datatype Reply = Generation(text: string) | Raised(message: string)

  /** The reply to each successive attempt at one request. */
  type Attempts = nat -> Reply

  /** A generation that is empty after `strip()`. */
  predicate Blank(r: Reply) {
    r.Generation? && Strip(r.text) == []
  }

  /**
   * The retry loop shared by the services, from attempt `k` on: attempt `k`
   * gets `attempts(k)`; `decide` says whether that reply ends the loop with a
   * value (`Some`) or moves on to the next attempt (`None`); after
   * `MaxAttempts` attempts the loop gives `exhausted`. The second component is
   * the number of backend calls made in all.
   */
  function RetryOutcome<T>(attempts: Attempts, decide: Reply -> Option<T>, exhausted: T, k: nat): (T, nat)
    decreases MaxAttempts - k
  {
    if k >= MaxAttempts then (exhausted, k)
    else match decide(attempts(k))
      case Some(v) => (v, k + 1)
      case None => RetryOutcome(attempts, decide, exhausted, k + 1)
  }

  /**
   * What the retry loop promises: between one and `MaxAttempts` calls; every
   * call but the last moved on; the last one's value is the result, or, when
   * it too moved on, all attempts were used and the result is `exhausted`.
   */
  lemma {:induction false} RetryOutcomeSpec<T>(attempts: Attempts, decide: Reply -> Option<T>, exhausted: T, k: nat)
    requires k < MaxAttempts
    requires forall j :: 0 <= j < k ==> decide(attempts(j)).None?
    decreases MaxAttempts - k
    ensures var (result, calls) := RetryOutcome(attempts, decide, exhausted, k);
      && k < calls <= MaxAttempts
      && (forall j :: 0 <= j < calls - 1 ==> decide(attempts(j)).None?)
      && (decide(attempts(calls - 1)).Some? ==> result == decide(attempts(calls - 1)).value)
      && (decide(attempts(calls - 1)).None? ==> calls == MaxAttempts && result == exhausted)
  {
    if decide(attempts(k)).None? && k + 1 < MaxAttempts {
      RetryOutcomeSpec(attempts, decide, exhausted, k + 1);
    }
  }

  /** The loop as the services write it (`for _ in range(3)` with an early `return`). */
  method Retry<T>(attempts: Attempts, decide: Reply -> Option<T>, exhausted: T)
    returns (result: T, calls: nat)
    ensures (result, calls) == RetryOutcome(attempts, decide, exhausted, 0)
  {
    calls := 0;
    while calls < MaxAttempts
      invariant calls <= MaxAttempts
      invariant RetryOutcome(attempts, decide, exhausted, calls) == RetryOutcome(attempts, decide, exhausted, 0)
    {
      var d := decide(attempts(calls));
      calls := calls + 1;
      if d.Some? {
        return d.value, calls;
      }
    }
    return exhausted, calls;
  }
}
