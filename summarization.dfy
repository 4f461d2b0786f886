/**
 * The summarization service (`summarization_service.py`): the retry and
 * parse policy of `summarize_text`, and the map-reduce of
 * `recursive_summarize` over the chunks of a document.
 */
module Summarization {
  import opened Wrappers
  import opened Text
  import opened Seqs
  import opened Json
  import opened Backend
  import opened Chunker
  import opened Extractor

  /** Longest document prefix summarised for the global context. */
  const ContextLimit: nat := 4000

  /** Separator between the partial summaries of one pass. */
  const PartialSeparator := "\n\n"

  const EmptyResponseError := "Failed to generate summary (empty response)."
  const FailurePrefix := "Failed to generate summary: "

  /**
   * Python truthiness of a JSON value: `None`, `False`, `0`, `""`, `[]` and
   * `{}` are false.
   */
  predicate Truthy(j: Json) {
    match j
    case JNull => false
    case JBool(b) => b
    case JNum(n) => n != 0
    case JStr(s) => s != []
    case JArr(items) => items != []
    case JObj(fields) => fields != []
  }

  /**
   * What one `summarize_text` call puts into its prompt: the text, the
   * document context when it is shown (`if context`), and the mode.
   */
  datatype Call = Call(text: string, context: Option<Json>, isFinal: bool)

  /** `summarize_text(text, context=ctx)`: the context reaches the prompt only when it is truthy. */
  function SectionCall(text: string, ctx: Option<Json>): (c: Call)
    ensures !c.isFinal && c.text == text
    ensures c.context.Some? <==> ctx.Some? && Truthy(ctx.value)
    ensures c.context.Some? ==> c.context == ctx
  {
    Call(text, if ctx.Some? && Truthy(ctx.value) then ctx else None, false)
  }

  /** A falsy context gives the very prompt that no context gives. */
  lemma FalsyContextIgnored(text: string, ctx: Json)
    requires !Truthy(ctx)
    ensures SectionCall(text, Some(ctx)) == SectionCall(text, None)
  {
  }

  /**
   * How `summarize_text` treats one reply: an exception ends the call with
   * the error record carrying its message; a blank generation moves on to
   * the next attempt; otherwise the stripped generation is parsed directly,
   * and when that fails it goes through the extractor.
   */
  function SummaryDecision(parse: Parser, reply: Reply): (d: Option<Json>)
    ensures reply.Raised? ==> d == Some(ErrorRecord(FailurePrefix + reply.message))
    ensures reply.Generation? ==> (d.None? <==> Blank(reply))
    ensures reply.Generation? && !Blank(reply) && parse(Strip(reply.text)).Some? ==>
      d == parse(Strip(reply.text))
    ensures reply.Generation? && !Blank(reply) && parse(Strip(reply.text)).None? ==>
      d == Some(Extracted(parse, Strip(reply.text)))
  {
    match reply
    case Raised(m) => Some(ErrorRecord(FailurePrefix + m))
    case Generation(g) =>
      var s := Strip(g);
      if s == [] then None
      else match parse(s)
        case Some(v) => Some(v)
        case None => Some(Extracted(parse, s))
  }

  /** Only the stripped generation matters: whitespace around it changes no decision. */
  lemma {:induction false} SummaryDecisionIgnoresSpace(parse: Parser, g: string)
    ensures SummaryDecision(parse, Generation(g)) == SummaryDecision(parse, Generation(Strip(g)))
  {
    StripIdempotent(g);
  }

  /** The outcome of one `summarize_text` call and the number of backend calls it made. */
  function SummaryOutcome(parse: Parser, attempts: Attempts): (Json, nat) {
    RetryOutcome(attempts, r => SummaryDecision(parse, r), ErrorRecord(EmptyResponseError), 0)
  }

  /** `summarize_text`, with the backend's replies to its attempts given. */
  method SummarizeText(parse: Parser, attempts: Attempts) returns (summary: Json, calls: nat)
    ensures (summary, calls) == SummaryOutcome(parse, attempts)
  {
    summary, calls := Retry(attempts, r => SummaryDecision(parse, r), ErrorRecord(EmptyResponseError));
  }

  /** Every call before the last gave a blank generation. */
  lemma SummaryRetriedOnlyOnBlank(parse: Parser, attempts: Attempts)
    ensures 1 <= SummaryOutcome(parse, attempts).1 <= MaxAttempts
    ensures forall j :: 0 <= j < SummaryOutcome(parse, attempts).1 - 1 ==> Blank(attempts(j))
  {
    var decide := (r: Reply) => SummaryDecision(parse, r);
    RetryOutcomeSpec(attempts, decide, ErrorRecord(EmptyResponseError), 0);
    forall j | 0 <= j < SummaryOutcome(parse, attempts).1 - 1 ensures Blank(attempts(j)) {
      assert decide(attempts(j)).None?;
    }
  }

  /** The summary is the last reply's decision, or the empty-response error when that reply was blank too. */
  lemma SummaryFromLastReply(parse: Parser, attempts: Attempts)
    ensures 1 <= SummaryOutcome(parse, attempts).1 <= MaxAttempts
    ensures var (summary, last) := (SummaryOutcome(parse, attempts).0, attempts(SummaryOutcome(parse, attempts).1 - 1));
      && (Blank(last) ==> SummaryOutcome(parse, attempts).1 == MaxAttempts && summary == ErrorRecord(EmptyResponseError))
      && (!Blank(last) ==> Some(summary) == SummaryDecision(parse, last))
  {
    var decide := (r: Reply) => SummaryDecision(parse, r);
    RetryOutcomeSpec(attempts, decide, ErrorRecord(EmptyResponseError), 0);
    var last := attempts(SummaryOutcome(parse, attempts).1 - 1);
    assert decide(last) == SummaryDecision(parse, last);
  }

  /**
   * What `summarize_text` promises: at most three calls; every call but the
   * last gave a blank generation; the result comes from the last reply, or
   * is the empty-response error when all three were blank.
   */
  lemma SummaryOutcomeSpec(parse: Parser, attempts: Attempts)
    ensures var (summary, calls) := SummaryOutcome(parse, attempts);
      && 1 <= calls <= MaxAttempts
      && (forall j :: 0 <= j < calls - 1 ==> Blank(attempts(j)))
      && (Blank(attempts(calls - 1)) ==> calls == MaxAttempts && summary == ErrorRecord(EmptyResponseError))
      && (!Blank(attempts(calls - 1)) ==> Some(summary) == SummaryDecision(parse, attempts(calls - 1)))
  {
    SummaryRetriedOnlyOnBlank(parse, attempts);
    SummaryFromLastReply(parse, attempts);
  }

  /** The first non-blank generation decides the summary, and later replies are never requested. */
  lemma SummaryFromFirstNonBlank(parse: Parser, attempts: Attempts, k: nat)
    requires k < MaxAttempts
    requires forall j :: 0 <= j < k ==> Blank(attempts(j))
    requires attempts(k).Generation? && !Blank(attempts(k))
    ensures SummaryOutcome(parse, attempts).1 == k + 1
    ensures Some(SummaryOutcome(parse, attempts).0) == SummaryDecision(parse, attempts(k))
  {
    SummaryOutcomeSpec(parse, attempts);
  }

  /** Three blank generations give the empty-response error. */
  lemma SummaryAllBlank(parse: Parser, attempts: Attempts)
    requires forall j :: 0 <= j < MaxAttempts ==> Blank(attempts(j))
    ensures SummaryOutcome(parse, attempts) == (ErrorRecord(EmptyResponseError), MaxAttempts)
  {
    SummaryOutcomeSpec(parse, attempts);
  }

  // ---------------------------------------------------------------------------
  // One pass of `recursive_summarize`

  /** The prefix of at most `ContextLimit` characters that the global context is made from. */
  function ContextPrefix(text: string): (p: string)
    ensures |p| == Min(|text|, ContextLimit) && p <= text
  {
    text[..Min(|text|, ContextLimit)]
  }

  /** The service's string form of a partial summary: `json.dumps` for a dict, `str` for anything else. */
  function ServiceString(dumps: Printer, str: Printer, j: Json): (s: string)
    ensures j.JObj? ==> s == dumps(j)
    ensures !j.JObj? ==> s == str(j)
  {
    if j.JObj? then dumps(j) else str(j)
  }

  /** What a pass ends with: another pass over the combined summaries, or the final summary. */
  datatype Step = Recurse(combined: string) | Final(summary: Json)

  /** The partial summaries, in chunk order, each stringified. */
  function Partials(summarize: Call -> Json, stringify: Json -> string, chunks: seq<string>, ctx: Json): (ps: seq<string>)
    ensures |ps| == |chunks|
    ensures forall i :: 0 <= i < |chunks| ==> ps[i] == stringify(summarize(SectionCall(chunks[i], Some(ctx))))
  {
    if chunks == [] then []
    else
      Partials(summarize, stringify, chunks[..|chunks| - 1], ctx)
        + [stringify(summarize(SectionCall(chunks[|chunks| - 1], Some(ctx))))]
  }

  /** The chunks of a pass: the greedy chunking of the document's sentences. */
  function PassChunks(segment: string -> seq<string>, text: string, maxWords: int): seq<string> {
    ChunkTexts(Chunk(segment(text), maxWords))
  }

  /** One pass, on the chunks of `text` and the global context computed from it. */
  function PassStep(summarize: Call -> Json, segment: string -> seq<string>, stringify: Json -> string,
                    text: string, maxWords: int): Step
  {
    var ctx := summarize(Call(ContextPrefix(text), None, false));
    var combined := Join(Partials(summarize, stringify, PassChunks(segment, text, maxWords), ctx), PartialSeparator);
    if WordCount(combined) > maxWords * 2 then Recurse(combined)
    else Final(summarize(Call(combined, None, true)))
  }

  /**
   * One pass as the service runs it: chunk, summarise the context prefix,
   * summarise each chunk with that context and stringify it, join, then
   * decide.
   */
  method ReducePass(summarize: Call -> Json, segment: string -> seq<string>, stringify: Json -> string,
                    text: string, maxWords: int) returns (step: Step)
    ensures step == PassStep(summarize, segment, stringify, text, maxWords)
  {
    var chunks := SmartChunk(segment(text), maxWords);
    var ctx := summarize(Call(ContextPrefix(text), None, false));
    var partials: seq<string> := [];
    for i := 0 to |chunks|
      invariant partials == Partials(summarize, stringify, chunks[..i], ctx)
    {
      assert chunks[..i + 1][..i] == chunks[..i];
      partials := partials + [stringify(summarize(SectionCall(chunks[i], Some(ctx))))];
    }
    assert chunks[..|chunks|] == chunks;
    var combined := Join(partials, PartialSeparator);
    if WordCount(combined) > maxWords * 2 {
      step := Recurse(combined);
    } else {
      step := Final(summarize(Call(combined, None, true)));
    }
  }

  /**
   * The recursion decision counts the words of the partials: a pass recurses
   * exactly when the partial summaries hold more than `2 * maxWords` words in
   * all, since the separator adds none and glues none together.
   */
  lemma PassRecursesIff(summarize: Call -> Json, segment: string -> seq<string>, stringify: Json -> string,
                        text: string, maxWords: int)
    ensures var ctx := summarize(Call(ContextPrefix(text), None, false));
      var partials := Partials(summarize, stringify, PassChunks(segment, text, maxWords), ctx);
      && (PassStep(summarize, segment, stringify, text, maxWords).Recurse? <==> SumWords(partials) > maxWords * 2)
      && (PassStep(summarize, segment, stringify, text, maxWords).Recurse? ==>
            PassStep(summarize, segment, stringify, text, maxWords).combined == Join(partials, PartialSeparator))
  {
    var ctx := summarize(Call(ContextPrefix(text), None, false));
    var partials := Partials(summarize, stringify, PassChunks(segment, text, maxWords), ctx);
    assert AllSpace(PartialSeparator) by {
      assert IsSpace(PartialSeparator[0]) && IsSpace(PartialSeparator[1]);
    }
    WordCountJoin(partials, PartialSeparator);
  }

  /**
   * A document with no sentences gives no partials: with a non-negative
   * `max_words` the final call sees the empty text; with a negative one, the
   * empty text's zero words exceed `2 * max_words` and the pass recurses on
   * the empty text.
   */
  lemma PassOnEmpty(summarize: Call -> Json, segment: string -> seq<string>, stringify: Json -> string,
                    text: string, maxWords: int)
    requires segment(text) == []
    ensures maxWords >= 0 ==> PassStep(summarize, segment, stringify, text, maxWords) == Final(summarize(Call("", None, true)))
    ensures maxWords < 0 ==> PassStep(summarize, segment, stringify, text, maxWords) == Recurse("")
  {
    ChunkNonEmpty(segment(text), maxWords);
  }

  // ---------------------------------------------------------------------------
  // The recursion

  /** Passes run one after another on the combined text, at most `fuel` of them, until one is final. */
  function Iterate(pass: string -> Step, text: string, fuel: nat): Option<Json>
    decreases fuel
  {
    if fuel == 0 then None
    else match pass(text)
      case Final(s) => Some(s)
      case Recurse(combined) => Iterate(pass, combined, fuel - 1)
  }

  /**
   * `recursive_summarize` with at most `fuel` passes: None when the fuel runs
   * out before a pass ends with a final summary.
   */
  function Reduce(summarize: Call -> Json, segment: string -> seq<string>, stringify: Json -> string,
                  text: string, maxWords: int, fuel: nat): Option<Json>
  {
    Iterate(t => PassStep(summarize, segment, stringify, t, maxWords), text, fuel)
  }

  /** More fuel never changes the outcome of passes that reached a summary. */
  lemma {:induction false} IterateFuelMonotone(pass: string -> Step, text: string, fuel: nat, more: nat)
    requires fuel <= more
    requires Iterate(pass, text, fuel).Some?
    decreases fuel
    ensures Iterate(pass, text, more) == Iterate(pass, text, fuel)
  {
    match pass(text)
    case Final(_) =>
    case Recurse(combined) =>
      IterateFuelMonotone(pass, combined, fuel - 1, more - 1);
  }

  /** More fuel never changes a summary that was reached. */
  lemma ReduceFuelMonotone(summarize: Call -> Json, segment: string -> seq<string>,
                           stringify: Json -> string, text: string, maxWords: int,
                           fuel: nat, more: nat)
    requires fuel <= more
    requires Reduce(summarize, segment, stringify, text, maxWords, fuel).Some?
    ensures Reduce(summarize, segment, stringify, text, maxWords, more)
         == Reduce(summarize, segment, stringify, text, maxWords, fuel)
  {
    IterateFuelMonotone(t => PassStep(summarize, segment, stringify, t, maxWords), text, fuel, more);
  }

  /**
   * Every summary the recursion returns is a final-mode call, without
   * context, on a combined text of at most `2 * maxWords` words.
   */
  lemma {:induction false} ReduceEndsInFinalCall(summarize: Call -> Json, segment: string -> seq<string>,
                                                 stringify: Json -> string, text: string, maxWords: int, fuel: nat)
    requires Reduce(summarize, segment, stringify, text, maxWords, fuel).Some?
    decreases fuel
    ensures exists combined: string ::
              && WordCount(combined) <= maxWords * 2
              && Reduce(summarize, segment, stringify, text, maxWords, fuel) == Some(summarize(Call(combined, None, true)))
  {
    var ctx := summarize(Call(ContextPrefix(text), None, false));
    var combined := Join(Partials(summarize, stringify, PassChunks(segment, text, maxWords), ctx), PartialSeparator);
    if WordCount(combined) > maxWords * 2 {
      ReduceEndsInFinalCall(summarize, segment, stringify, combined, maxWords, fuel - 1);
    } else {
      assert WordCount(combined) <= maxWords * 2;
    }
  }

  /** The service's `summarize_text` over a backend that answers every call with its attempts' replies. */
  function ServiceSummarize(parse: Parser, backend: Call -> Attempts): Call -> Json {
    c => SummaryOutcome(parse, backend(c)).0
  }

  /**
   * The service's recursion, with `json.dumps` and `str` as the string
   * forms. When it ends, its summary is what `summarize_text` makes of the
   * backend's replies to a final-mode call on a combined text of at most
   * `2 * max_words` words.
   */
  function RecursiveSummarize(parse: Parser, backend: Call -> Attempts, segment: string -> seq<string>,
                              dumps: Printer, str: Printer, text: string, maxWords: int, fuel: nat): (r: Option<Json>)
    ensures r.Some? ==> exists combined: string ::
              && WordCount(combined) <= maxWords * 2
              && r.value == SummaryOutcome(parse, backend(Call(combined, None, true))).0
  {
    var stringify := j => ServiceString(dumps, str, j);
    var r := Reduce(ServiceSummarize(parse, backend), segment, stringify, text, maxWords, fuel);
    if r.Some? then
      ReduceEndsInFinalCall(ServiceSummarize(parse, backend), segment, stringify, text, maxWords, fuel);
      r
    else r
  }
}
