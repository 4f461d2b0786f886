/**
 * The question service (`question_service.py`): the retry policy of
 * `generate_questions_chunk`, and `recursive_generate_questions`, which
 * chunks a document, asks for questions per chunk with a shared context,
 * and deduplicates the questions by their normalised text.
 */
module Questions {
  import opened Wrappers
  import opened Text
  import opened Seqs
  import opened Json
  import opened Backend
  import opened Chunker

  const DefaultMaxWords: nat := 400
  const DefaultMaxQuestions: nat := 5

  /** A generation that, stripped, parses as a JSON list: the one kind of reply that is returned. */
  predicate ListReply(parse: Parser, r: Reply) {
    r.Generation? && !Blank(r) && parse(Strip(r.text)).Some? && parse(Strip(r.text)).value.JArr?
  }

  /**
   * How `generate_questions_chunk` treats one reply: an exception ends the
   * call with no questions; a list parse ends it with that list; a blank,
   * unparsable or non-list generation moves on to the next attempt.
   */
  function QuestionDecision(parse: Parser, reply: Reply): (d: Option<seq<Json>>)
    ensures reply.Raised? ==> d == Some([])
    ensures reply.Generation? ==> (d.Some? <==> ListReply(parse, reply))
    ensures ListReply(parse, reply) ==> d == Some(parse(Strip(reply.text)).value.items)
  {
    match reply
    case Raised(_) => Some([])
    case Generation(g) =>
      var s := Strip(g);
      if s == [] then None
      else match parse(s)
        case Some(JArr(items)) => Some(items)
        case _ => None
  }

  /** The questions one `generate_questions_chunk` call returns and the number of backend calls. */
  function QuestionsOutcome(parse: Parser, attempts: Attempts): (seq<Json>, nat) {
    RetryOutcome(attempts, r => QuestionDecision(parse, r), [], 0)
  }

  /** `generate_questions_chunk`, with the backend's replies to its attempts given. */
  method GenerateQuestionsChunk(parse: Parser, attempts: Attempts) returns (questions: seq<Json>, calls: nat)
    ensures (questions, calls) == QuestionsOutcome(parse, attempts)
  {
    questions, calls := Retry(attempts, r => QuestionDecision(parse, r), []);
  }

  /** Every call before the last was a generation that was not a list. */
  lemma QuestionsRetriedOnlyOnFailure(parse: Parser, attempts: Attempts)
    ensures 1 <= QuestionsOutcome(parse, attempts).1 <= MaxAttempts
    ensures forall j :: 0 <= j < QuestionsOutcome(parse, attempts).1 - 1 ==>
      attempts(j).Generation? && !ListReply(parse, attempts(j))
  {
    var decide := (r: Reply) => QuestionDecision(parse, r);
    RetryOutcomeSpec(attempts, decide, [], 0);
    forall j | 0 <= j < QuestionsOutcome(parse, attempts).1 - 1
      ensures attempts(j).Generation? && !ListReply(parse, attempts(j))
    {
      assert decide(attempts(j)).None?;
    }
  }

  /** The result is decided by the last reply: its list, or `[]` when it raised or when all three failed. */
  lemma QuestionsFromLastReply(parse: Parser, attempts: Attempts)
    ensures 1 <= QuestionsOutcome(parse, attempts).1 <= MaxAttempts
    ensures var (questions, last) := (QuestionsOutcome(parse, attempts).0, attempts(QuestionsOutcome(parse, attempts).1 - 1));
      && (ListReply(parse, last) ==> questions == parse(Strip(last.text)).value.items)
      && (last.Raised? ==> questions == [])
      && (last.Generation? && !ListReply(parse, last) ==> QuestionsOutcome(parse, attempts).1 == MaxAttempts && questions == [])
  {
    var decide := (r: Reply) => QuestionDecision(parse, r);
    RetryOutcomeSpec(attempts, decide, [], 0);
    var last := attempts(QuestionsOutcome(parse, attempts).1 - 1);
    assert decide(last) == QuestionDecision(parse, last);
  }

  /**
   * What `generate_questions_chunk` promises: at most three calls; every call
   * but the last was a generation that was not a list; the result is the
   * last reply's list, or `[]` when it raised or when all three failed.
   */
  lemma QuestionsOutcomeSpec(parse: Parser, attempts: Attempts)
    ensures var (questions, calls) := QuestionsOutcome(parse, attempts);
      var last := attempts(calls - 1);
      && 1 <= calls <= MaxAttempts
      && (forall j :: 0 <= j < calls - 1 ==> attempts(j).Generation? && !ListReply(parse, attempts(j)))
      && (ListReply(parse, last) ==> questions == parse(Strip(last.text)).value.items)
      && (last.Raised? ==> questions == [])
      && (last.Generation? && !ListReply(parse, last) ==> calls == MaxAttempts && questions == [])
  {
    QuestionsRetriedOnlyOnFailure(parse, attempts);
    QuestionsFromLastReply(parse, attempts);
  }

  /** Questions come back only from a reply that parsed as a list; otherwise the result is empty. */
  lemma QuestionsOnlyFromList(parse: Parser, attempts: Attempts)
    requires QuestionsOutcome(parse, attempts).0 != []
    ensures exists k ::
              && 0 <= k < MaxAttempts && ListReply(parse, attempts(k))
              && QuestionsOutcome(parse, attempts).0 == parse(Strip(attempts(k).text)).value.items
  {
    QuestionsFromLastReply(parse, attempts);
    var last := QuestionsOutcome(parse, attempts).1 - 1;
    assert ListReply(parse, attempts(last));
  }

  // ---------------------------------------------------------------------------
  // `recursive_generate_questions`

  /**
   * What one `generate_questions_chunk` call is given: the chunk, the
   * document context (shown in the prompt only when non-empty) and the
   * largest number of questions asked for.
   */
  datatype QuestionCall = QuestionCall(text: string, context: string, maxQuestions: int)

  /**
   * The shared context: empty for a document of at most `maxWords` words,
   * otherwise the first two chunks (fewer when there are fewer) joined by a
   * space.
   */
  function GlobalContext(text: string, chunks: seq<string>, maxWords: int): (ctx: string)
    ensures WordCount(text) <= maxWords ==> ctx == ""
    ensures WordCount(text) > maxWords && |chunks| == 0 ==> ctx == ""
    ensures WordCount(text) > maxWords && |chunks| == 1 ==> ctx == chunks[0]
    ensures WordCount(text) > maxWords && |chunks| >= 2 ==> ctx == chunks[0] + " " + chunks[1]
  {
    if WordCount(text) > maxWords then
      var first := chunks[..Min(2, |chunks|)];
      assert |chunks| >= 2 ==> first == [chunks[0], chunks[1]] && Join(first[1..], " ") == chunks[1];
      Join(first, " ")
    else ""
  }

  /** The per-chunk question lists, in chunk order. */
  function PerChunk(generate: QuestionCall -> seq<Json>, chunks: seq<string>, ctx: string, maxQuestions: int)
    : (lists: seq<seq<Json>>)
    ensures |lists| == |chunks|
    ensures forall i :: 0 <= i < |chunks| ==> lists[i] == generate(QuestionCall(chunks[i], ctx, maxQuestions))
  {
    if chunks == [] then []
    else
      PerChunk(generate, chunks[..|chunks| - 1], ctx, maxQuestions)
        + [generate(QuestionCall(chunks[|chunks| - 1], ctx, maxQuestions))]
  }

  /** `all_questions`: the lists of all chunks, extended one after another. */
  method CollectQuestions(generate: QuestionCall -> seq<Json>, chunks: seq<string>, ctx: string, maxQuestions: int)
    returns (all: seq<Json>)
    ensures all == Flatten(PerChunk(generate, chunks, ctx, maxQuestions))
  {
    all := [];
    for i := 0 to |chunks|
      invariant all == Flatten(PerChunk(generate, chunks[..i], ctx, maxQuestions))
    {
      var questions := generate(QuestionCall(chunks[i], ctx, maxQuestions));
      assert chunks[..i + 1][..i] == chunks[..i];
      FlattenAppend(PerChunk(generate, chunks[..i], ctx, maxQuestions), questions);
      all := all + questions;
    }
    assert chunks[..|chunks|] == chunks;
  }

  // ---------------------------------------------------------------------------
  // Deduplication

  /**
   * `q.get("question", "").strip().lower()`: None where it raises (`q` is
   * not a dict, or its question is not a string); a missing question gives
   * the empty key.
   */
  function KeyOf(q: Json): Option<string> {
    match q
    case JObj(fields) =>
      (match Get(fields, "question")
       case None => Some("")
       case Some(JStr(s)) => Some(Lower(Strip(s)))
       case Some(_) => None)
    case _ => None
  }

  /**
   * A dict without a question has the empty key; a dict whose question is a
   * string has that string stripped and lower-cased; every other question
   * has no key.
   */
  lemma KeyOfSpec(q: Json)
    ensures q.JObj? && Get(q.fields, "question").None? ==> KeyOf(q) == Some("")
    ensures q.JObj? && Get(q.fields, "question").Some? && Get(q.fields, "question").value.JStr? ==>
      KeyOf(q) == Some(Lower(Strip(Get(q.fields, "question").value.s)))
    ensures KeyOf(q).Some? <==> q.JObj? && (Get(q.fields, "question").None? || Get(q.fields, "question").value.JStr?)
  {
  }

  /** The keys of all questions under `keyOf`, or None when some key raises. */
  function KeysBy(keyOf: Json -> Option<string>, qs: seq<Json>): (ks: Option<seq<string>>)
    ensures ks.Some? <==> forall j :: 0 <= j < |qs| ==> keyOf(qs[j]).Some?
    ensures ks.Some? ==> |ks.value| == |qs| && forall j :: 0 <= j < |qs| ==> keyOf(qs[j]) == Some(ks.value[j])
  {
    if qs == [] then Some([])
    else match (KeysBy(keyOf, qs[..|qs| - 1]), keyOf(qs[|qs| - 1]))
      case (Some(ks), Some(k)) => Some(ks + [k])
      case _ => None
  }

  /** The dedup keys of all questions, or None when some key raises. */
  function KeyList(qs: seq<Json>): Option<seq<string>> {
    KeysBy(KeyOf, qs)
  }

  /** Question `i` is kept: its key is non-empty and no earlier question has it. */
  predicate Kept(keys: seq<string>, i: nat)
    requires i < |keys|
  {
    keys[i] != "" && forall j :: 0 <= j < i ==> keys[j] != keys[i]
  }

  /**
   * The questions, among the first `|keys|`, that are the first with their
   * non-empty key, in order; `keys` are the keys of those questions.
   */
  function FirstOccurrences(qs: seq<Json>, keys: seq<string>): seq<Json>
    requires |keys| <= |qs|
  {
    if keys == [] then []
    else
      var n := |keys| - 1;
      FirstOccurrences(qs, keys[..n]) + (if Kept(keys, n) then [qs[n]] else [])
  }

  /** The non-empty keys among `keys`. */
  function SeenKeys(keys: seq<string>): (seen: set<string>)
    ensures forall key :: key in seen <==> key != "" && key in keys
  {
    if keys == [] then {}
    else
      var n := |keys| - 1;
      SeenKeys(keys[..n]) + (if keys[n] != "" then {keys[n]} else {})
  }

  /** The next question is kept exactly when its key is non-empty and not among the keys seen so far. */
  lemma KeptStep(keys: seq<string>, key: string)
    ensures Kept(keys + [key], |keys|) <==> key != "" && key !in SeenKeys(keys)
  {
    var keys' := keys + [key];
    if key != "" && key in keys {
      var j :| 0 <= j < |keys| && keys[j] == key;
      assert keys'[j] == key;
    }
  }

  /** One more question whose key is known extends the key list by that key. */
  lemma KeysBySnoc(keyOf: Json -> Option<string>, all: seq<Json>, i: nat, keys: seq<string>, key: string)
    requires i < |all| && KeysBy(keyOf, all[..i]) == Some(keys) && keyOf(all[i]) == Some(key)
    ensures KeysBy(keyOf, all[..i + 1]) == Some(keys + [key])
  {
    assert all[..i + 1][..i] == all[..i];
  }

  /** One step of the dedup loop: the next question's key extends the seen set and the kept list. */
  lemma DedupStep(all: seq<Json>, keys: seq<string>, key: string)
    requires |keys| < |all|
    ensures SeenKeys(keys + [key]) == SeenKeys(keys) + (if key != "" then {key} else {})
    ensures FirstOccurrences(all, keys + [key])
         == FirstOccurrences(all, keys) + (if key != "" && key !in SeenKeys(keys) then [all[|keys|]] else [])
  {
    var keys' := keys + [key];
    assert keys'[..|keys|] == keys;
    KeptStep(keys, key);
  }

  /** A question whose key raises leaves no key list. */
  lemma KeyRaises(all: seq<Json>, i: nat)
    requires i < |all| && KeyOf(all[i]).None?
    ensures KeyList(all).None?
  {
  }

  /** The dedup loop; None where evaluating some key raises. */
  method Dedup(all: seq<Json>) returns (unique: Option<seq<Json>>)
    ensures unique.None? <==> KeyList(all).None?
    ensures unique.Some? ==> unique.value == FirstOccurrences(all, KeyList(all).value)
  {
    var seen: set<string> := {};
    var kept: seq<Json> := [];
    ghost var keys: seq<string> := [];
    for i := 0 to |all|
      invariant KeyList(all[..i]) == Some(keys)
      invariant seen == SeenKeys(keys)
      invariant kept == FirstOccurrences(all, keys)
    {
      var key := KeyOf(all[i]);
      if key.None? {
        KeyRaises(all, i);
        return None;
      }
      KeysBySnoc(KeyOf, all, i, keys, key.value);
      DedupStep(all, keys, key.value);
      if key.value != "" && key.value !in seen {
        seen := seen + {key.value};
        kept := kept + [all[i]];
      }
      keys := keys + [key.value];
    }
    assert all[..|all|] == all;
    return Some(kept);
  }

  /** The kept indices, in increasing order: exactly the indices that are kept. */
  function KeptIndices(keys: seq<string>): (idx: seq<nat>)
    ensures forall a :: 0 <= a < |idx| ==> idx[a] < |keys| && Kept(keys, idx[a])
    ensures forall a, b :: 0 <= a < b < |idx| ==> idx[a] < idx[b]
    ensures forall i :: 0 <= i < |keys| && Kept(keys, i) ==> i in idx
  {
    if keys == [] then []
    else
      var n := |keys| - 1;
      var before := KeptIndices(keys[..n]);
      assert forall i :: 0 <= i < n ==> (Kept(keys[..n], i) <==> Kept(keys, i));
      before + (if Kept(keys, n) then [n] else [])
  }

  /** The kept questions are the questions at the kept indices. */
  lemma {:induction false} FirstOccurrencesAtKept(qs: seq<Json>, keys: seq<string>)
    requires |keys| <= |qs|
    ensures var out, idx := FirstOccurrences(qs, keys), KeptIndices(keys);
      |out| == |idx| && forall a :: 0 <= a < |out| ==> out[a] == qs[idx[a]]
  {
    if keys != [] {
      FirstOccurrencesAtKept(qs, keys[..|keys| - 1]);
    }
  }

  /**
   * Deduplication keeps, in order, the questions at increasing indices whose
   * keys are non-empty and pairwise distinct.
   */
  lemma FirstOccurrencesDistinct(qs: seq<Json>, keys: seq<string>)
    requires |keys| <= |qs|
    ensures var out, idx := FirstOccurrences(qs, keys), KeptIndices(keys);
      && |out| == |idx|
      && (forall a :: 0 <= a < |idx| ==> out[a] == qs[idx[a]] && keys[idx[a]] != "")
      && (forall a, b :: 0 <= a < b < |idx| ==> idx[a] < idx[b] && keys[idx[a]] != keys[idx[b]])
  {
    FirstOccurrencesAtKept(qs, keys);
    var idx := KeptIndices(keys);
    forall a, b | 0 <= a < b < |idx| ensures keys[idx[a]] != keys[idx[b]] {
      assert Kept(keys, idx[b]);
    }
  }

  /** The first index with a given non-empty key is kept. */
  lemma {:induction false} FirstWithKeyKept(keys: seq<string>, j: nat)
    requires j < |keys| && keys[j] != ""
    ensures exists i :: 0 <= i <= j && keys[i] == keys[j] && Kept(keys, i)
  {
    if !Kept(keys, j) {
      var i :| 0 <= i < j && keys[i] == keys[j];
      FirstWithKeyKept(keys, i);
    }
  }

  /** Every non-empty key among `keys` is the key of a kept question. */
  lemma FirstOccurrencesCover(qs: seq<Json>, keys: seq<string>, j: nat)
    requires |keys| <= |qs|
    requires j < |keys| && keys[j] != ""
    ensures exists i :: 0 <= i <= j && keys[i] == keys[j] && qs[i] in FirstOccurrences(qs, keys)
  {
    FirstWithKeyKept(keys, j);
    FirstOccurrencesAtKept(qs, keys);
    var i :| 0 <= i <= j && keys[i] == keys[j] && Kept(keys, i);
    var idx := KeptIndices(keys);
    var a :| 0 <= a < |idx| && idx[a] == i;
    assert FirstOccurrences(qs, keys)[a] == qs[i];
  }

  /** `recursive_generate_questions`, with the per-chunk generator and the sentence segmenter given. */
  method RecursiveGenerateQuestions(generate: QuestionCall -> seq<Json>, segment: string -> seq<string>,
                                    text: string, maxWords: int, maxQuestions: int)
    returns (unique: Option<seq<Json>>)
    ensures var chunks := ChunkTexts(Chunk(segment(text), maxWords));
      var all := Flatten(PerChunk(generate, chunks, GlobalContext(text, chunks, maxWords), maxQuestions));
      && (unique.None? <==> KeyList(all).None?)
      && (unique.Some? ==> unique.value == FirstOccurrences(all, KeyList(all).value))
  {
    var chunks := SmartChunk(segment(text), maxWords);
    var ctx := GlobalContext(text, chunks, maxWords);
    var all := CollectQuestions(generate, chunks, ctx, maxQuestions);
    unique := Dedup(all);
  }
}
