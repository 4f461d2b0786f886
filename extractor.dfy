/**
 * `extract_json_from_text`: recovering a JSON value from model output that
 * may be wrapped in ``` fences, tagged `json`, or surrounded by prose.
 * `json.loads` is the abstract `parse`.
 */
module Extractor {
  import opened Wrappers
  import opened Text
  import opened Json

  const Fence := "```"

  /** What the extractor returns when every attempt fails. */
  const Sentinel: Json := ErrorRecord("Could not extract valid JSON from response")

  /** The text tried for one fenced segment: stripped, then a leading `json` tag and the space after it removed. */
  function FenceContent(part: string): string
  {
    var c := Strip(part);
    if StartsWith(c, "json") then Strip(c[4..]) else c
  }

  /** The text tried for each piece. */
  function FenceContents(parts: seq<string>): (cs: seq<string>)
    ensures |cs| == |parts|
    ensures forall k :: 0 <= k < |parts| ==> cs[k] == FenceContent(parts[k])
  {
    if parts == [] then [] else [FenceContent(parts[0])] + FenceContents(parts[1..])
  }

  /**
   * The texts tried in stage 1, one per piece of `text.split("```")`; the
   * pieces at odd indices are the ones between an opening and a closing fence.
   */
  function Candidates(text: string): seq<string> {
    FenceContents(Split(text, Fence))
  }

  /** A candidate between fences (odd index) that parses. */
  predicate FenceParses(parse: Parser, contents: seq<string>, k: int) {
    0 <= k < |contents| && k % 2 == 1 && parse(contents[k]).Some?
  }

  /** The first odd index from `i` on whose candidate parses. */
  function FirstParsingFence(parse: Parser, contents: seq<string>, i: nat): (r: Option<nat>)
    requires i % 2 == 1
    decreases |contents| - i
    ensures r.Some? ==> i <= r.value && FenceParses(parse, contents, r.value)
    ensures r.Some? ==> forall j :: i <= j < r.value ==> !FenceParses(parse, contents, j)
    ensures r.None? ==> forall j :: i <= j ==> !FenceParses(parse, contents, j)
  {
    if i >= |contents| then None
    else if parse(contents[i]).Some? then Some(i)
    else
      var r := FirstParsingFence(parse, contents, i + 2);
      assert !FenceParses(parse, contents, i + 1);
      r
  }

  /** Stage 1 on the candidates. */
  function FencedAttemptOn(parse: Parser, contents: seq<string>): Option<Json> {
    match FirstParsingFence(parse, contents, 1)
    case Some(k) => parse(contents[k])
    case None => None
  }

  /** Stage 1, tried only when the text has a fence: the parse of the first fenced candidate that parses. */
  function FencedAttempt(parse: Parser, text: string): Option<Json> {
    if Contains(text, Fence) then FencedAttemptOn(parse, Candidates(text)) else None
  }

  /** Stage 3's candidate: from the first `{` to the last `}`, both included, when the last follows the first. */
  function BraceSpan(text: string): (r: Option<string>)
    ensures r.Some? <==> Find(text, '{') != -1 && RFind(text, '}') > Find(text, '{')
    ensures r.Some? ==> r.value == text[Find(text, '{')..RFind(text, '}') + 1]
    ensures r.Some? ==> r.value[0] == '{' && r.value[|r.value| - 1] == '}'
  {
    var start := Find(text, '{');
    var end := RFind(text, '}') + 1;
    if start != -1 && end > start then Some(text[start..end]) else None
  }

  /** The three attempts in order; None when all fail. */
  function Attempt(parse: Parser, text: string): Option<Json> {
    var fenced := FencedAttempt(parse, text);
    if fenced.Some? then fenced
    else if parse(text).Some? then parse(text)
    else match BraceSpan(text)
      case Some(span) => parse(span)
      case None => None
  }

  /** What `extract_json_from_text` returns. */
  function Extracted(parse: Parser, text: string): Json {
    Attempt(parse, text).GetOr(Sentinel)
  }

  /** Stage 1 as the services run it: a loop over the odd-indexed candidates that stops at the first that parses. */
  method FirstFenced(parse: Parser, contents: seq<string>) returns (r: Option<Json>)
    ensures r == FencedAttemptOn(parse, contents)
  {
    var i := 1;
    while i < |contents|
      invariant i % 2 == 1
      invariant forall j :: 1 <= j < i ==> !FenceParses(parse, contents, j)
    {
      var parsed := parse(contents[i]);
      if parsed.Some? {
        FirstInCandidates(parse, contents, i);
        return parsed;
      }
      assert !FenceParses(parse, contents, i + 1);
      i := i + 2;
    }
    FencedAttemptOnIff(parse, contents);
    return None;
  }

  /** `extract_json_from_text`: the stages in order, each returning as soon as it parses. */
  method ExtractJson(parse: Parser, text: string) returns (r: Json)
    ensures r == Extracted(parse, text)
  {
    ghost var stage1 := FencedAttempt(parse, text);
    if Contains(text, Fence) {
      var fenced := FirstFenced(parse, Candidates(text));
      assert fenced == stage1;
      if fenced.Some? {
        return fenced.value;
      }
    }
    assert stage1.None?;
    var whole := parse(text);
    if whole.Some? {
      return whole.value;
    }
    var start := Find(text, '{');
    var end := RFind(text, '}') + 1;
    if start != -1 && end > start {
      assert BraceSpan(text) == Some(text[start..end]);
      var spanned := parse(text[start..end]);
      if spanned.Some? {
        return spanned.value;
      }
    } else {
      assert BraceSpan(text).None?;
    }
    return Sentinel;
  }

  // ---------------------------------------------------------------------------
  // What the extractor promises

  /** Stage 1 fails exactly when no odd-indexed candidate parses, and otherwise takes the first that does. */
  lemma FencedAttemptOnIff(parse: Parser, contents: seq<string>)
    ensures FencedAttemptOn(parse, contents).None? <==> forall j :: !FenceParses(parse, contents, j)
    ensures FencedAttemptOn(parse, contents).Some? ==>
      exists k :: FenceParses(parse, contents, k)
        && (forall j :: j < k ==> !FenceParses(parse, contents, j))
        && FencedAttemptOn(parse, contents) == parse(contents[k])
  {
    var r := FirstParsingFence(parse, contents, 1);
    if r.Some? {
      assert FenceParses(parse, contents, r.value);
    }
  }

  /** The candidate at odd index `k` is the one stage 1 takes when none before it parses. */
  lemma FirstInCandidates(parse: Parser, contents: seq<string>, k: nat)
    requires FenceParses(parse, contents, k)
    requires forall j :: j < k ==> !FenceParses(parse, contents, j)
    ensures FencedAttemptOn(parse, contents) == parse(contents[k])
  {
    FencedAttemptOnIff(parse, contents);
  }

  /**
   * The fenced stage fails exactly when no candidate between fences parses
   * (a text without a fence has a single piece, so no such candidate), and
   * otherwise gives the parse of the first one that does.
   */
  lemma FencedAttemptIff(parse: Parser, text: string)
    ensures FencedAttempt(parse, text).None? <==> forall j :: !FenceParses(parse, Candidates(text), j)
    ensures FencedAttempt(parse, text).Some? ==>
      exists k :: FenceParses(parse, Candidates(text), k)
        && (forall j :: j < k ==> !FenceParses(parse, Candidates(text), j))
        && FencedAttempt(parse, text) == parse(Candidates(text)[k])
  {
    FencedAttemptOnIff(parse, Candidates(text));
    SplitSingleIff(text, Fence);
  }

  /** Stage 1 wins: the first odd-indexed candidate that parses gives the result. */
  lemma ExtractedFromFirstFence(parse: Parser, text: string, k: nat)
    requires FenceParses(parse, Candidates(text), k)
    requires forall j :: j < k ==> !FenceParses(parse, Candidates(text), j)
    ensures Extracted(parse, text) == parse(Candidates(text)[k]).value
  {
    FencedAttemptIff(parse, text);
    var contents := Candidates(text);
    var k' :| FenceParses(parse, contents, k')
        && (forall j :: j < k' ==> !FenceParses(parse, contents, j))
        && FencedAttempt(parse, text) == parse(contents[k']);
  }

  /** Stage 2: when no fenced candidate parses, a text that parses as a whole is the result. */
  lemma ExtractedWhole(parse: Parser, text: string)
    requires forall j :: !FenceParses(parse, Candidates(text), j)
    requires parse(text).Some?
    ensures Extracted(parse, text) == parse(text).value
  {
    FencedAttemptIff(parse, text);
  }

  /** Stage 3: otherwise the span from the first `{` to the last `}` is tried. */
  lemma ExtractedBraceSpan(parse: Parser, text: string)
    requires forall j :: !FenceParses(parse, Candidates(text), j)
    requires parse(text).None?
    requires BraceSpan(text).Some? && parse(BraceSpan(text).value).Some?
    ensures Extracted(parse, text) == parse(BraceSpan(text).value).value
  {
    FencedAttemptIff(parse, text);
  }

  /**
   * Stage 4: the extractor falls back to the sentinel exactly when no fenced
   * candidate, not the whole text and not the brace span parses.
   */
  lemma ExtractionFailsIff(parse: Parser, text: string)
    ensures Attempt(parse, text).None? <==>
      && (forall j :: !FenceParses(parse, Candidates(text), j))
      && parse(text).None?
      && (BraceSpan(text).None? || parse(BraceSpan(text).value).None?)
    ensures Attempt(parse, text).None? ==> Extracted(parse, text) == Sentinel
  {
    FencedAttemptIff(parse, text);
  }
}
