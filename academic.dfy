/**
 * The academic assistant (`academic_assistant_service.py`): one answer per
 * preprocessed question, each asked of the backend once, with a fixed-shape
 * record standing in for an answer whose call raised. Its
 * `format_llama3_prompt` and `extract_json_from_text` are the same code as
 * the summarization service's, modelled once in `Backend.FormatPrompt` and
 * `Extractor`.
 */
module Academic {
  import opened Wrappers
  import opened Text
  import opened Json
  import opened Backend
  import opened Extractor
  import opened Preprocess

  const AnswerErrorPrefix := "Error generating academic answer: "

  /** The keys of the record that stands in for a failed answer, in order. */
  const FallbackKeys: seq<string> :=
    ["error", "question", "introduction", "key_concepts", "main_content", "examples", "conclusion",
     "tips_for_maximum_marks"]

  /** The record returned when the call raises (`generate_academic_answer`'s `except` branch). */
  function FallbackAnswer(question: string, message: string): (r: Json)
    ensures r.JObj? && Keys(r.fields) == FallbackKeys
  {
    JObj(Object(FallbackKeys, FallbackValues(question, message)))
  }

  /** The values of the fallback record's sections, from `introduction` on. */
  const EmptySections: seq<Json> := [JStr(""), JArr([]), JStr(""), JArr([]), JStr(""), JArr([])]

  /** The values of the fallback record's fields, in key order. */
  function FallbackValues(question: string, message: string): seq<Json> {
    [JStr(AnswerErrorPrefix + message), JStr(question)] + EmptySections
  }

  /** Every section after the error and the question is an empty text or an empty list. */
  lemma EmptySectionsAreEmpty()
    ensures forall k :: 0 <= k < |EmptySections| ==> EmptySections[k] == JStr("") || EmptySections[k] == JArr([])
  {
  }

  /** The fallback record's error is the prefixed message. */
  lemma FallbackError(question: string, message: string)
    ensures Get(FallbackAnswer(question, message).fields, "error") == Some(JStr(AnswerErrorPrefix + message))
  {
    var fields := FallbackAnswer(question, message).fields;
    assert fields[0] == (FallbackKeys[0], FallbackValues(question, message)[0]);
  }

  /** The fallback record's question is the question as asked. */
  lemma FallbackQuestion(question: string, message: string)
    ensures Get(FallbackAnswer(question, message).fields, "question") == Some(JStr(question))
  {
    var fields := FallbackAnswer(question, message).fields;
    assert fields[0] == (FallbackKeys[0], FallbackValues(question, message)[0]);
    assert fields[1] == (FallbackKeys[1], FallbackValues(question, message)[1]);
    assert "error" != "question" by {
      assert "error"[0] != "question"[0];
    }
    assert Get(fields, "question") == Get(fields[1..], "question");
    assert fields[1..][0] == fields[1];
  }

  /** Every other field of the fallback record is empty. */
  lemma FallbackSections(question: string, message: string)
    ensures var fields := FallbackAnswer(question, message).fields;
      forall k :: 2 <= k < |fields| ==> fields[k].1 == JStr("") || fields[k].1 == JArr([])
  {
    var fields := FallbackAnswer(question, message).fields;
    var values := FallbackValues(question, message);
    EmptySectionsAreEmpty();
    forall k | 2 <= k < |fields| ensures fields[k].1 == JStr("") || fields[k].1 == JArr([]) {
      assert fields[k].1 == values[k];
      assert values[k] == EmptySections[k - 2];
    }
  }

  /**
   * The fallback record holds the error with its message and the question as
   * asked; every other field is an empty text section or an empty list.
   */
  lemma FallbackAnswerSpec(question: string, message: string)
    ensures var r := FallbackAnswer(question, message);
      && Get(r.fields, "error") == Some(JStr(AnswerErrorPrefix + message))
      && Get(r.fields, "question") == Some(JStr(question))
      && forall k :: 2 <= k < |r.fields| ==> r.fields[k].1 == JStr("") || r.fields[k].1 == JArr([])
  {
    FallbackError(question, message);
    FallbackQuestion(question, message);
    FallbackSections(question, message);
  }

  /**
   * `generate_academic_answer`, given the reply to its one backend call: the
   * record for the error when the call raised; otherwise the stripped
   * generation, parsed directly, or through the extractor when that fails.
   */
  function AcademicAnswer(parse: Parser, question: string, reply: Reply): Json {
    match reply
    case Raised(m) => FallbackAnswer(question, m)
    case Generation(g) =>
      var s := Strip(g);
      match parse(s)
      case Some(v) => v
      case None => Extracted(parse, s)
  }

  /**
   * What an answer is: the fallback record exactly when the call raised,
   * otherwise the direct parse when there is one, and otherwise the
   * extractor's result on the same stripped text.
   */
  lemma AcademicAnswerCases(parse: Parser, question: string, reply: Reply)
    ensures reply.Raised? ==> AcademicAnswer(parse, question, reply) == FallbackAnswer(question, reply.message)
    ensures reply.Generation? && parse(Strip(reply.text)).Some? ==>
      AcademicAnswer(parse, question, reply) == parse(Strip(reply.text)).value
    ensures reply.Generation? && parse(Strip(reply.text)).None? ==>
      AcademicAnswer(parse, question, reply) == Extracted(parse, Strip(reply.text))
  {
  }

  /**
   * There is no retry here: a blank generation, which the parser rejects, is
   * answered with the extractor's sentinel rather than asked again.
   */
  lemma BlankAnswerIsSentinel(parse: Parser, question: string, reply: Reply)
    requires Blank(reply) && parse("").None?
    ensures AcademicAnswer(parse, question, reply) == Sentinel
  {
    var s := Strip(reply.text);
    assert s == "";
    assert !Contains(s, Fence) by {
      assert FindFrom(s, Fence, 0).None?;
    }
    assert BraceSpan(s).None?;
  }

  /** `q["marks"]`: the number, or `None`. */
  function MarksJson(marks: Option<nat>): (j: Json)
    ensures marks.Some? <==> j.JNum?
    ensures marks.Some? ==> j == JNum(marks.value)
    ensures marks.None? ==> j == JNull
  {
    match marks
    case Some(n) => JNum(n)
    case None => JNull
  }

  /**
   * Writing the question's number and marks into an answer
   * (`answer["question_number"] = ...; answer["marks"] = ...`); None where
   * the answer is not a dict and the assignment raises.
   */
  function Annotate(answer: Json, q: QuestionRecord): (r: Option<Json>)
    ensures r.Some? <==> answer.JObj?
    ensures r.Some? ==> r.value.JObj?
  {
    if answer.JObj? then
      Some(JObj(Set(Set(answer.fields, "question_number", JStr(q.questionNumber)), "marks", MarksJson(q.marks))))
    else None
  }

  /**
   * An annotated answer carries the question's number and marks, whatever
   * the model put under those keys, and keeps every other key of the answer
   * as it was.
   */
  lemma AnnotateSpec(answer: Json, q: QuestionRecord, other: string)
    requires answer.JObj?
    ensures Get(Annotate(answer, q).value.fields, "question_number") == Some(JStr(q.questionNumber))
    ensures Get(Annotate(answer, q).value.fields, "marks") == Some(MarksJson(q.marks))
    ensures other != "question_number" && other != "marks" ==>
      Get(Annotate(answer, q).value.fields, other) == Get(answer.fields, other)
  {
    var once := Set(answer.fields, "question_number", JStr(q.questionNumber));
    GetSet(answer.fields, "question_number", JStr(q.questionNumber), other);
    GetSet(answer.fields, "question_number", JStr(q.questionNumber), "question_number");
    GetSet(once, "marks", MarksJson(q.marks), other);
    GetSet(once, "marks", MarksJson(q.marks), "question_number");
  }

  /** How each question is answered: its text and the paper's shared context go to the backend. */
  type Answerer = (string, string) -> Json

  /** One question's solution: its answer, annotated; None where the annotation raises. */
  function Solve(answerFor: Answerer, context: string): QuestionRecord -> Option<Json> {
    (q: QuestionRecord) => Annotate(answerFor(q.questionText, context), q)
  }

  /** The solutions for the questions in order, or None once one of them fails. */
  function Solutions(solve: QuestionRecord -> Option<Json>, qs: seq<QuestionRecord>): (r: Option<seq<Json>>)
    ensures r.Some? ==> |r.value| == |qs|
  {
    if qs == [] then Some([])
    else match Solutions(solve, qs[..|qs| - 1])
      case None => None
      case Some(sols) =>
        match solve(qs[|qs| - 1])
        case None => None
        case Some(a) => Some(sols + [a])
  }

  /** What `generate_answers_for_all_questions` returns: `{"solutions": [...]}`, or None where it raises. */
  function AllAnswers(answerFor: Answerer, paper: Paper): Option<Json> {
    match Solutions(Solve(answerFor, paper.context), paper.questions)
    case Some(sols) => Some(JObj([("solutions", JArr(sols))]))
    case None => None
  }

  /** `generate_answers_for_all_questions`. */
  method GenerateAnswersForAllQuestions(answerFor: Answerer, paper: Paper) returns (r: Option<Json>)
    ensures r == AllAnswers(answerFor, paper)
  {
    var context := paper.context;
    var questions := paper.questions;
    ghost var solve := Solve(answerFor, context);
    var all: seq<Json> := [];
    for i := 0 to |questions|
      invariant Solutions(solve, questions[..i]) == Some(all)
    {
      var q := questions[i];
      var answer := answerFor(q.questionText, context);
      var solution := Annotate(answer, q);
      assert solve(q) == solution;
      if solution.None? {
        SolutionsStopAt(solve, questions, i);
        return None;
      }
      SolutionsSnoc(solve, questions, i, all);
      all := all + [solution.value];
    }
    assert questions[..|questions|] == questions;
    r := Some(JObj([("solutions", JArr(all))]));
  }

  /** Solving one more question extends the solutions by its solution. */
  lemma SolutionsSnoc(solve: QuestionRecord -> Option<Json>, qs: seq<QuestionRecord>, i: nat, sols: seq<Json>)
    requires i < |qs| && Solutions(solve, qs[..i]) == Some(sols) && solve(qs[i]).Some?
    ensures Solutions(solve, qs[..i + 1]) == Some(sols + [solve(qs[i]).value])
  {
    assert qs[..i + 1][..i] == qs[..i];
  }

  /** Once the solution of question `i` fails, the whole list has no solutions. */
  lemma SolutionsStopAt(solve: QuestionRecord -> Option<Json>, qs: seq<QuestionRecord>, i: nat)
    requires i < |qs| && solve(qs[i]).None?
    ensures Solutions(solve, qs).None?
  {
    SolutionsSpec(solve, qs);
  }

  /** All or nothing, in order: there are solutions exactly when every question's succeeds, and then solution `i` is question `i`'s. */
  lemma {:induction false} SolutionsSpec(solve: QuestionRecord -> Option<Json>, qs: seq<QuestionRecord>)
    ensures Solutions(solve, qs).Some? <==> forall i :: 0 <= i < |qs| ==> solve(qs[i]).Some?
    ensures Solutions(solve, qs).Some? ==>
      forall i :: 0 <= i < |qs| ==> Solutions(solve, qs).value[i] == solve(qs[i]).value
  {
    if qs != [] {
      var init := qs[..|qs| - 1];
      SolutionsSpec(solve, init);
      assert forall i :: 0 <= i < |init| ==> init[i] == qs[i];
    }
  }

  /**
   * The solutions follow the questions one for one, in order: there are
   * solutions exactly when every answer is a dict, and then solution `i` is
   * the answer to question `i`'s text under the shared context, carrying that
   * question's number and marks and the answer's other keys unchanged.
   */
  lemma AllAnswersSpec(answerFor: Answerer, paper: Paper, i: nat, other: string)
    ensures AllAnswers(answerFor, paper).Some? <==>
      forall j :: 0 <= j < |paper.questions| ==> answerFor(paper.questions[j].questionText, paper.context).JObj?
    ensures AllAnswers(answerFor, paper).Some? && i < |paper.questions| ==>
      var q := paper.questions[i];
      var answer := answerFor(q.questionText, paper.context);
      var sols := AllAnswers(answerFor, paper).value;
      && sols.JObj? && Keys(sols.fields) == ["solutions"]
      && |sols.fields[0].1.items| == |paper.questions|
      && sols.fields[0].1.items[i] == Annotate(answer, q).value
      && Get(sols.fields[0].1.items[i].fields, "question_number") == Some(JStr(q.questionNumber))
      && Get(sols.fields[0].1.items[i].fields, "marks") == Some(MarksJson(q.marks))
      && (other != "question_number" && other != "marks" ==>
            Get(sols.fields[0].1.items[i].fields, other) == Get(answer.fields, other))
  {
    var solve := Solve(answerFor, paper.context);
    var qs := paper.questions;
    SolutionsSpec(solve, qs);
    assert forall j :: 0 <= j < |qs| ==> solve(qs[j]) == Annotate(answerFor(qs[j].questionText, paper.context), qs[j]);
    if AllAnswers(answerFor, paper).Some? && i < |qs| {
      AnnotateSpec(answerFor(qs[i].questionText, paper.context), qs[i], other);
    }
  }
}
