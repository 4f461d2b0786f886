/**
 * The legacy single-file application (`app.py`): its own `summarize_text`,
 * which keeps an unparsable generation as a plain string instead of
 * extracting JSON from it, its `recursive_summarize`, which serialises every
 * partial with `json.dumps`, and the page loop of its text-extraction route.
 * Its `smart_chunk_text` and `format_llama3_prompt` are the same code as the
 * service's, modelled once in `Chunker.SmartChunk` and `Backend.FormatPrompt`.
 */
module Legacy {
  import opened Wrappers
  import opened Text
  import opened Json
  import opened Backend
  import opened Summarization
  import opened Pdf

  const LegacyFailure := "Failed to generate summary."

  /**
   * How the legacy `summarize_text` treats one reply: any exception ends the
   * call with a fixed error record; a blank generation moves on; otherwise
   * the stripped generation is parsed, and kept as a string when it does not
   * parse.
   */
  function LegacyDecision(parse: Parser, reply: Reply): (d: Option<Json>)
    ensures reply.Raised? ==> d == Some(ErrorRecord(LegacyFailure))
    ensures reply.Generation? ==> (d.None? <==> Blank(reply))
    ensures reply.Generation? && !Blank(reply) && parse(Strip(reply.text)).Some? ==> d == parse(Strip(reply.text))
    ensures reply.Generation? && !Blank(reply) && parse(Strip(reply.text)).None? ==> d == Some(JStr(Strip(reply.text)))
  {
    match reply
    case Raised(_) => Some(ErrorRecord(LegacyFailure))
    case Generation(g) =>
      var s := Strip(g);
      if s == [] then None
      else match parse(s)
        case Some(v) => Some(v)
        case None => Some(JStr(s))
  }

  /** The outcome of one legacy `summarize_text` call and the number of backend calls it made. */
  function LegacyOutcome(parse: Parser, attempts: Attempts): (Json, nat) {
    RetryOutcome(attempts, r => LegacyDecision(parse, r), ErrorRecord(EmptyResponseError), 0)
  }

  /** The legacy `summarize_text`, with the backend's replies to its attempts given. */
  method LegacySummarizeText(parse: Parser, attempts: Attempts) returns (summary: Json, calls: nat)
    ensures (summary, calls) == LegacyOutcome(parse, attempts)
  {
    summary, calls := Retry(attempts, r => LegacyDecision(parse, r), ErrorRecord(EmptyResponseError));
  }

  /**
   * What the legacy `summarize_text` promises: at most three calls, every
   * one but the last blank; three blank generations give the empty-response
   * error; an exception gives the fixed failure record whatever its message;
   * the first non-blank generation gives its parse, or the stripped text
   * itself, never the extractor's result.
   */
  lemma LegacyOutcomeSpec(parse: Parser, attempts: Attempts)
    ensures var (summary, calls) := LegacyOutcome(parse, attempts);
      var last := attempts(calls - 1);
      && 1 <= calls <= MaxAttempts
      && (forall j :: 0 <= j < calls - 1 ==> Blank(attempts(j)))
      && (Blank(last) ==> calls == MaxAttempts && summary == ErrorRecord(EmptyResponseError))
      && (last.Raised? ==> summary == ErrorRecord(LegacyFailure))
      && (last.Generation? && !Blank(last) && parse(Strip(last.text)).Some? ==>
            summary == parse(Strip(last.text)).value)
      && (last.Generation? && !Blank(last) && parse(Strip(last.text)).None? ==>
            summary == JStr(Strip(last.text)))
  {
    var decide := (r: Reply) => LegacyDecision(parse, r);
    RetryOutcomeSpec(attempts, decide, ErrorRecord(EmptyResponseError), 0);
    var (summary, calls) := LegacyOutcome(parse, attempts);
    forall j | 0 <= j < calls - 1 ensures Blank(attempts(j)) {
      assert decide(attempts(j)).None?;
    }
    assert decide(attempts(calls - 1)) == LegacyDecision(parse, attempts(calls - 1));
  }

  /**
   * Where the two versions part: on the same replies they agree except on a
   * first non-blank generation that does not parse, which the service sends
   * through the extractor and the legacy code keeps as a string, and on an
   * exception, whose message only the service reports.
   */
  lemma LegacyAgreesWithService(parse: Parser, attempts: Attempts)
    requires forall j :: 0 <= j < MaxAttempts ==> attempts(j).Generation?
    requires forall j :: 0 <= j < MaxAttempts ==> !Blank(attempts(j)) ==> parse(Strip(attempts(j).text)).Some?
    ensures LegacyOutcome(parse, attempts) == SummaryOutcome(parse, attempts)
  {
    LegacyOutcomeSpec(parse, attempts);
    SummaryOutcomeSpec(parse, attempts);
  }

  /** The legacy `summarize_text` over a backend that answers every call with its attempts' replies. */
  function LegacySummarize(parse: Parser, backend: Call -> Attempts): Call -> Json {
    c => LegacyOutcome(parse, backend(c)).0
  }

  /** The legacy recursion: every partial, dict or not, goes through `json.dumps`. */
  function LegacyRecursiveSummarize(parse: Parser, backend: Call -> Attempts, segment: string -> seq<string>,
                                    dumps: Printer, text: string, maxWords: int, fuel: nat): (r: Option<Json>)
    ensures r.Some? ==> exists combined: string ::
              && WordCount(combined) <= maxWords * 2
              && r.value == LegacyOutcome(parse, backend(Call(combined, None, true))).0
  {
    var r := Reduce(LegacySummarize(parse, backend), segment, dumps, text, maxWords, fuel);
    if r.Some? then
      ReduceEndsInFinalCall(LegacySummarize(parse, backend), segment, dumps, text, maxWords, fuel);
      r
    else r
  }

  /**
   * With the same summaries, a legacy pass and a service pass coincide
   * whenever every partial summary is a dict, the only case in which the
   * service also uses `json.dumps`.
   */
  lemma PassesAgreeOnObjects(summarize: Call -> Json, segment: string -> seq<string>, dumps: Printer,
                             str: Printer, text: string, maxWords: int)
    requires var ctx := summarize(Call(ContextPrefix(text), None, false));
      var chunks := PassChunks(segment, text, maxWords);
      forall i :: 0 <= i < |chunks| ==> summarize(SectionCall(chunks[i], Some(ctx))).JObj?
    ensures PassStep(summarize, segment, j => ServiceString(dumps, str, j), text, maxWords)
         == PassStep(summarize, segment, dumps, text, maxWords)
  {
    var ctx := summarize(Call(ContextPrefix(text), None, false));
    var chunks := PassChunks(segment, text, maxWords);
    var service := Partials(summarize, j => ServiceString(dumps, str, j), chunks, ctx);
    var legacy := Partials(summarize, dumps, chunks, ctx);
    assert service == legacy;
  }

  /** The legacy route's page loop: the same dictionary and text, and an error record with the raw message. */
  function LegacyPages(doc: Document): Result<(map<nat, string>, string), Json> {
    match PagesOutcome(doc)
    case Failure(e) => Failure(ErrorRecord(e))
    case Success(v) => Success(v)
  }

  /** The page loop of the legacy extraction route, up to the JSON error it answers with. */
  method LegacyExtractPages(doc: Document) returns (r: Result<(map<nat, string>, string), Json>)
    ensures r == LegacyPages(doc)
  {
    var outcome := CollectPages(doc);
    if outcome.Failure? {
      return Failure(ErrorRecord(outcome.error));
    }
    r := Success(outcome.value);
  }

  /**
   * The legacy loop and the service's agree on every document they read,
   * and report the same failure, the service adding its prefix to the
   * message.
   */
  lemma LegacyPagesAgreeWithService(doc: Document)
    ensures LegacyPages(doc).Success? <==> PdfText(doc).Success?
    ensures LegacyPages(doc).Success? ==> LegacyPages(doc).value == PdfText(doc).value
    ensures LegacyPages(doc).Failure? ==>
      exists m :: LegacyPages(doc).error == ErrorRecord(m) && PdfText(doc).error == PdfErrorPrefix + m
  {
    if PagesOutcome(doc).Failure? {
      var m := PagesOutcome(doc).error;
      assert LegacyPages(doc).error == ErrorRecord(m);
    }
  }
}
