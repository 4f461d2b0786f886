# llm-lab text processing, in Dafny

This project models the text processing that surrounds the language-model
calls in llm-lab, a Flask service. The service summarises documents,
generates exam questions, answers question papers and extracts text from
PDFs and images. The model takes every external collaborator as an input:

- the model backend is the sequence of replies its attempts receive;
- the JSON parser and serialisers are function parameters;
- the sentence segmenter gives its sentences;
- the PDF reader gives the documents' pages;
- the OCR service gives its detected blocks.

What stays is deterministic logic over strings and sequences, and this
project proves what it computes.

Modules:

- `Wrappers`, `Seqs`, `Text`: `Option`/`Result` and flattening. `Text`
  also holds the Python string operations the code relies on: `strip`,
  `lower`, `find`, `rfind`, `split(sep)`, `split()` word counting and joining.
- `Json`: JSON values with dicts as ordered key/value lists, item
  assignment, and the one-key error record.
- `Backend`: the Llama 3 prompt envelope and the shared three-attempt retry
  loop. Each service passes its own decision for a reply.
- `Chunker`: `smart_chunk_text`, the greedy packing of sentences into
  chunks bounded by word count.
- `Extractor`: `extract_json_from_text`, the four-stage recovery of a JSON
  value from generated text.
- `Summarization`: `summarize_text` and the passes of `recursive_summarize`.
- `Questions`: `generate_questions_chunk` and `recursive_generate_questions`
  (global context, per-chunk collection, de-duplication).
- `Preprocess`: `preprocess_question_paper`. It has a leftmost,
  non-overlapping regex scanner that stands in for `re.search`, `re.split`
  with a capturing group, and `re.sub`. The scanner is instantiated for
  `Q\.?1`, `Q\.?\d+` and `\[\d+\s*Marks?\]`.
- `Academic`: `generate_academic_answer` with its fallback record, and
  `generate_answers_for_all_questions`.
- `Files`: file-type detection, the temporary file name, and OCR line
  collection.
- `Pdf`: the page dictionary and the combined text.
- `Legacy`: the single-file application `app.py`, which has its own
  `summarize_text`, its own `recursive_summarize` and its own page loop.

Some functions appear more than once in the repository. Each is modelled
once, by one member:

- `format_llama3_prompt` has three identical copies, in
  `app/services/summarization_service.py`,
  `app/services/academic_assistant_service.py` and `app.py`.
- `extract_json_from_text` has two identical copies, in the summarization
  and academic services.
- `smart_chunk_text` has two identical copies, in the summarization service
  and `app.py`.

The source's loops are methods with loop invariants. Each method is proved
equal to a specification function, and the source's promises are lemmas
about that function:

- `SmartChunk`, `Retry`, `FirstFenced`, `ReducePass`, `Dedup`,
  `CollectQuestions`, `CollectRecords`, `GenerateAnswersForAllQuestions`,
  `ExtractTextFromImage` and `CollectPages` are such loops.
- The repository has no object whose fields are updated in place. Its lists
  and dicts are locals of those loops.

`RecursiveGenerateQuestions` takes the per-chunk generator as a parameter,
and `GenerateAnswersForAllQuestions` takes the per-question answerer. The
services pass `generate_questions_chunk` (`QuestionsOutcome` over the
backend's replies to that call) and `generate_academic_answer`
(`AcademicAnswer`). What is proved about the two holds for any generator,
and so for those.

On the question service's global context, the code joins the first two
chunks (`chunks[:2]`), although its comment speaks of the first chunk. The
model follows the code.

## Model

| member | source | states |
|---|---|---|
| Backend.FormatPrompt | app/services/summarization_service.py:15-29 | the prompt is the fixed Llama 3 header, then the user prompt unchanged, then the fixed trailer |
| Backend.FormatPromptInjective | app/services/academic_assistant_service.py:4-18 | different user prompts give different envelopes, so the user prompt can be read back |
| Backend.RetryOutcomeSpec | app/services/summarization_service.py:151-170 | the retry loop makes between one and three calls; every reply before the last one moves on; the last reply's decision is the result, and if it also moves on, three calls were made and the exhausted value is returned |
| Backend.Retry | app/services/question_service.py:44-63 | the retry loop computes the same result and call count as the retry specification |
| Chunker.FitCount | app/services/summarization_service.py:49-53 | the sentences taken into a group fit the remaining budget, and the next sentence would exceed it |
| Chunker.SmartChunk | app/services/summarization_service.py:31-60 | the loop's chunks are the texts of the reference greedy grouping of the sentences |
| Chunker.ChunkIsGreedy | app/services/summarization_service.py:48-58 | the reference grouping partitions the sentences with no empty group, with every group of two or more sentences within `max_words`, and with every group closed only because the next sentence would not fit |
| Chunker.GreedyPartitionUnique | app/services/summarization_service.py:50-55 | at most one grouping satisfies those rules, so they determine the chunks |
| Chunker.ChunkCoversSentences | app/services/summarization_service.py:48-58 | flattening the groups in order gives back exactly the input sentences |
| Chunker.ChunkNonEmpty | app/services/summarization_service.py:57-58 | there are no chunks exactly when there are no sentences, and no group is empty |
| Chunker.ChunkBound | app/services/summarization_service.py:49-55 | a chunk's word count is the sum of its sentences' counts, and only a one-sentence chunk may exceed `max_words` |
| Chunker.ChunkClosedGreedily | app/services/summarization_service.py:50-53 | for consecutive chunks, the words of the first chunk plus the words of the next chunk's first sentence exceed `max_words` |
| Extractor.FirstParsingFence | app/services/summarization_service.py:76-84 | the fence loop stops at the first odd-indexed part whose cleaned content parses, and no earlier odd part parses |
| Extractor.BraceSpan | app/services/summarization_service.py:92-95 | a span exists exactly when there is a `{` and the last `}` comes after it; the span runs from the first `{` to the last `}`, both included |
| Extractor.FirstFenced | app/services/academic_assistant_service.py:34-41 | the fence loop returns the parse of the first parsing candidate, or nothing |
| Extractor.ExtractJson | app/services/summarization_service.py:62-99 | the extractor's value is the specification's: fences first, then the whole text, then the brace span, then the sentinel |
| Extractor.FencedAttemptIff | app/services/summarization_service.py:73-84 | the fenced stage fails exactly when no odd-indexed candidate parses, and otherwise gives the parse of the first candidate that does |
| Extractor.ExtractedFromFirstFence | app/services/summarization_service.py:76-82 | when an odd candidate parses and none before it does, the result is that candidate's parse |
| Extractor.ExtractedWhole | app/services/summarization_service.py:87-88 | when no fenced candidate parses and the whole text does, the result is the whole text's parse |
| Extractor.ExtractedBraceSpan | app/services/summarization_service.py:89-95 | when neither fences nor the whole text parse and the brace span does, the result is the span's parse |
| Extractor.ExtractionFailsIff | app/services/summarization_service.py:99 | every stage fails exactly when no fence, not the whole text and not the brace span parses, and then the result is the sentinel error record |
| Extractor.FencedAttemptOnIff | app/services/academic_assistant_service.py:31-54 | the academic copy's fenced stage fails exactly when no odd candidate parses, and otherwise gives the first parsing candidate |
| Extractor.FenceContents | app/services/summarization_service.py:79-81 | each candidate is its part stripped, with a leading `json` tag removed and the rest stripped again |
| Summarization.FalsyContextIgnored | app/services/summarization_service.py:130 | a falsy context gives the same call as no context |
| Summarization.SummaryDecisionIgnoresSpace | app/services/summarization_service.py:160-168 | whitespace around a generation changes no decision: a generation and its stripped form are treated alike |
| Summarization.SummarizeText | app/services/summarization_service.py:101-173 | the summary and the call count are those of the retry specification with the service's decision |
| Summarization.SummaryOutcomeSpec | app/services/summarization_service.py:151-170 | at most three calls, all but the last blank; three blanks give the empty-response error; otherwise the summary is the last reply's decision |
| Summarization.SummaryRetriedOnlyOnBlank | app/services/summarization_service.py:151-166 | between one and three calls, and every reply before the last is a blank generation |
| Summarization.SummaryFromLastReply | app/services/summarization_service.py:159-170 | a blank last reply means three calls and the empty-response error; any other last reply's decision is the summary |
| Summarization.SummaryFromFirstNonBlank | app/services/summarization_service.py:162-168 | the call stops at the first non-blank generation, after as many calls as its position plus one, with that generation's decision |
| Summarization.SummaryAllBlank | app/services/summarization_service.py:170 | three blank generations give the empty-response error after three calls |
| Summarization.ContextPrefix | app/services/summarization_service.py:187 | the context is computed from the prefix of length `min(len(text), 4000)` |
| Summarization.Partials | app/services/summarization_service.py:190-196 | one partial per chunk, in chunk order: each chunk's summary under the global context, turned into a string |
| Summarization.ReducePass | app/services/summarization_service.py:186-203 | the pass's loop computes the pass specification |
| Summarization.PassRecursesIff | app/services/summarization_service.py:198-201 | a pass recurses exactly when the joined partials have more than `2 * max_words` words, and then recurses on the partials joined by a blank line |
| Summarization.PassOnEmpty | app/services/summarization_service.py:186-204 | a text with no sentences makes the final call on the empty string when `max_words` is not negative, and recurses on the empty string when it is |
| Summarization.IterateFuelMonotone | app/services/summarization_service.py:198-204 | for any pass function, passes that reach a summary with some fuel reach the same summary with more |
| Summarization.ReduceFuelMonotone | app/services/summarization_service.py:175-204 | a recursion that ends with some fuel ends with the same result given more fuel |
| Summarization.ReduceEndsInFinalCall | app/services/summarization_service.py:200-204 | a recursion that ends returns a final-mode call on a combined text of at most `2 * max_words` words |
| Summarization.RecursiveSummarize | app/services/summarization_service.py:175-204 | when the recursion ends, its summary is what `summarize_text` makes of the replies to a final-mode call on a combined text of at most `2 * max_words` words |
| Questions.QuestionDecision | app/services/question_service.py:52-61 | an exception ends with no questions; a generation ends the loop exactly when it parses as a list, and the result is that list |
| Questions.GenerateQuestionsChunk | app/services/question_service.py:5-66 | the questions and call count are those of the retry specification with the question decision |
| Questions.QuestionsOutcomeSpec | app/services/question_service.py:44-66 | at most three calls; every attempt before the last is a generation that is not a list; the last reply's list is returned, and an exception or three failures give `[]` |
| Questions.QuestionsRetriedOnlyOnFailure | app/services/question_service.py:44-61 | between one and three calls, and every attempt before the last is a generation that does not parse as a list |
| Questions.QuestionsFromLastReply | app/services/question_service.py:52-66 | the last reply decides: its list when it parses as one; `[]` after an exception; `[]` after three calls when it does not parse as a list |
| Questions.QuestionsOnlyFromList | app/services/question_service.py:55-59 | questions are returned only from an attempt whose generation parses as a list, and they are that list |
| Questions.GlobalContext | app/services/question_service.py:84-87 | the context is empty unless the text has more than `max_words` words, and then it is the first two chunks joined by a space |
| Questions.PerChunk | app/services/question_service.py:91-92 | one question list per chunk, in chunk order, each generated with the shared context |
| Questions.CollectQuestions | app/services/question_service.py:90-93 | all questions are the per-chunk lists concatenated in chunk order |
| Questions.KeyOfSpec | app/services/question_service.py:99 | the key of a dict is its `question` stripped and lower-cased, or `""` without one; any other value has no key, because the call raises |
| Questions.KeysBy | app/services/question_service.py:98-99 | the keys exist exactly when every question has one, and are listed one per question |
| Questions.Dedup | app/services/question_service.py:96-104 | de-duplication fails exactly when some key cannot be computed, and otherwise keeps the first occurrence of each non-empty key |
| Questions.FirstOccurrencesDistinct | app/services/question_service.py:100-102 | the kept questions are a subsequence of the input, in order, with non-empty and pairwise distinct keys |
| Questions.FirstOccurrencesAtKept | app/services/question_service.py:98-102 | the output holds exactly the questions at the kept indices, in increasing order |
| Questions.FirstWithKeyKept | app/services/question_service.py:100-101 | for every non-empty key, its earliest occurrence is kept |
| Questions.FirstOccurrencesCover | app/services/question_service.py:98-102 | every non-empty key that occurs in the input occurs in the output, through its first occurrence |
| Questions.RecursiveGenerateQuestions | app/services/question_service.py:68-104 | the result is the de-duplication of the per-chunk questions, generated under the global context, over the greedy chunks |
| Preprocess.Search | app/services/preprocess.py:5 | the search finds the leftmost match position at or after the start, or reports that there is none |
| Preprocess.SplitBy | app/services/preprocess.py:10 | splitting with a kept delimiter gives an odd number of pieces |
| Preprocess.SplitByCover | app/services/preprocess.py:10 | the pieces joined in order give back the split text |
| Preprocess.SplitByPieces | app/services/preprocess.py:10-15 | odd pieces are successive non-overlapping matches, and even pieces are the text between them, holding no match start |
| Preprocess.RemoveAllIsGaps | app/services/preprocess.py:21 | removing every match leaves the text between matches, the same pieces the split keeps at even indices |
| Preprocess.NoMatch | app/services/preprocess.py:10-23 | with no match the split is the whole text and the removal changes nothing |
| Preprocess.Run | app/services/preprocess.py:18 | a greedy run is the longest stretch of characters of the class from a position |
| Preprocess.DigitsValueDecimal | app/services/preprocess.py:20 | `int` of the decimal digits of `n` is `n` |
| Preprocess.Q1Len | app/services/preprocess.py:5 | the `Q\.?1` matcher matches exactly at a `Q1` or `Q.1` |
| Preprocess.ContextSectionSplit | app/services/preprocess.py:5-7 | the context is the text before the leftmost `Q1`/`Q.1` and the section is the rest; with no match the context is empty and the section is the whole text |
| Preprocess.MarkerLen | app/services/preprocess.py:10 | the `Q\.?\d+` matcher matches exactly at a `Q`, an optional dot, then a digit |
| Preprocess.MarkerMatchIsToken | app/services/preprocess.py:10 | a marker match is a question number whose digit run is greedy |
| Preprocess.MarkerTokenStripped | app/services/preprocess.py:14 | stripping a question number changes nothing |
| Preprocess.SectionStartsWithMarker | app/services/preprocess.py:7-10 | when there is a first question, the split of the section starts with an empty piece and holds at least one record |
| Preprocess.MarksLen | app/services/preprocess.py:18 | a marks match is bracketed, holds at least one digit, and is at least seven characters long |
| Preprocess.MarksLenComplete | app/services/preprocess.py:18 | every `[`, one or more digits, any whitespace, `Mark`, an optional `s` and `]` is matched as a whole: the match is `6 + d + w` characters long for `d` digits and `w` whitespace characters, one more with the `s` |
| Preprocess.MarksDigitsRun | app/services/preprocess.py:18-20 | in such an annotation the digits before the whitespace are the whole group, so the marks are the value of exactly those digits |
| Preprocess.MarksOfAnnotation | app/services/preprocess.py:17-20 | a block that opens with `[n Marks]` is found at position 0 and gives marks `n` |
| Preprocess.BlockRecordSpec | app/services/preprocess.py:14-28 | the number is the stripped token; the marks are those of the first annotation, or none; the text is the block with all annotations removed, then stripped, in both branches |
| Preprocess.Blocks | app/services/preprocess.py:10 | the section splits into an odd number of pieces, so the pieces after the first pair up two by two; that the first of each pair is a marker and the second its block is `SplitByPieces`, and that the leading piece is empty when a question was found is `SectionStartsWithMarker` |
| Preprocess.Records | app/services/preprocess.py:13-28 | one record per marker |
| Preprocess.RecordsAt | app/services/preprocess.py:13-15 | record `t` pairs the piece at index `2t+1` with the block at `2t+2` |
| Preprocess.CollectRecords | app/services/preprocess.py:12-28 | the loop that steps by two builds exactly those records |
| Preprocess.PreprocessQuestionPaper | app/services/preprocess.py:3-33 | the paper is the stripped context together with the records of the section's blocks |
| Preprocess.OddBlockIsMarker | app/services/preprocess.py:10-14 | every odd-indexed piece of the section's split is a question number, which the loop takes as `question_blocks[i]` |
| Preprocess.QuestionNumbersAreMarkers | app/services/preprocess.py:10-14 | there is one question per marker match, and each number is the exact matched token |
| Preprocess.RecordNumber | app/services/preprocess.py:14-23 | for any split, record `t`'s number is its stripped token and its text is its block with the annotations removed, then stripped |
| Preprocess.QuestionTextIsBlock | app/services/preprocess.py:15-23 | question `t`'s text comes from the block after its marker |
| Preprocess.BlocksHoldNoMarker | app/services/preprocess.py:10-15 | no block holds a marker, so each block runs from the end of one marker to the start of the next, or to the end of the section |
| Preprocess.BlocksCoverSection | app/services/preprocess.py:7-10 | the blocks and markers joined in order give back the questions section |
| Preprocess.NoMarkerNoQuestions | app/services/preprocess.py:10-13 | a section with no marker gives no questions |
| Academic.FallbackAnswer | app/services/academic_assistant_service.py:114-125 | the fallback record is a dict with the eight keys in order, from `error` and `question` to `tips_for_maximum_marks` |
| Academic.FallbackAnswerSpec | app/services/academic_assistant_service.py:114-125 | the fallback record holds the error with its prefix and message, and the question as asked; the other fields are empty strings or empty lists |
| Academic.AcademicAnswerCases | app/services/academic_assistant_service.py:98-125 | exactly one call: an exception gives the fallback; otherwise the direct parse of the stripped generation, else the extractor's result |
| Academic.BlankAnswerIsSentinel | app/services/academic_assistant_service.py:106-112 | a blank generation is not retried and gives the extractor's sentinel |
| Academic.Annotate | app/services/academic_assistant_service.py:136-137 | annotation succeeds exactly on dict answers, and the result is a dict |
| Academic.AnnotateSpec | app/services/academic_assistant_service.py:136-137 | the annotated answer carries the question's number and marks, overwriting the model's, and keeps every other key |
| Academic.Solutions | app/services/academic_assistant_service.py:131-138 | there is one solution per question when all succeed |
| Academic.GenerateAnswersForAllQuestions | app/services/academic_assistant_service.py:127-139 | the loop computes the specification's `{"solutions": [...]}`, or fails where an answer is not a dict |
| Academic.SolutionsSpec | app/services/academic_assistant_service.py:131-138 | the solutions exist exactly when every question's does, and solution `i` is question `i`'s |
| Academic.AllAnswersSpec | app/services/academic_assistant_service.py:127-139 | the output is a one-key dict whose solutions follow the questions in length and order; solution `i` is the answer for question `i`'s text under the shared context, with its number and marks set and other keys kept |
| Files.EndsWithAny | app/services/image_to_text_service.py:46 | the name ends with some extension of the list exactly when one of the checks succeeds |
| Files.DetermineFileType | app/services/image_to_text_service.py:42-49 | `Pdf` exactly when the lower-cased name ends with `.pdf`; `Image` exactly when it does not and ends with one of the image extensions; `Unknown` otherwise |
| Files.FileTypeIgnoresCase | app/services/image_to_text_service.py:42 | names equal up to case get the same type |
| Files.FileTypeOfLowered | app/services/image_to_text_service.py:42 | lower-casing the name first changes nothing |
| Files.Extension | app/services/image_to_text_service.py:62 | the `splitext` extension is a suffix of the name; it starts with a dot and holds no further dot and no slash |
| Files.TempPathSuffix | app/services/image_to_text_service.py:62 | the temporary path is `temp` followed by the original, non-lowered ending of the name |
| Files.ExtensionOfStemAndSuffix | app/services/image_to_text_service.py:62 | `stem.ext` has the extension `.ext` |
| Files.ExtensionWithoutDot | app/services/image_to_text_service.py:62 | a name without a dot has an empty extension |
| Files.LineTextsFromLines | app/services/image_to_text_service.py:24-27 | every kept text is the text of a LINE block, and there are no more texts than blocks |
| Files.LineTextsAppend | app/services/image_to_text_service.py:25-27 | line collection goes block by block, in order |
| Files.LineTextsSingle | app/services/image_to_text_service.py:26-27 | a block contributes its text exactly when its type is LINE |
| Files.ExtractTextFromImage | app/services/image_to_text_service.py:24-30 | the loop's text is the LINE texts in block order, joined by newlines |
| Files.ExtractTextFromFileSpec | app/services/image_to_text_service.py:61-71 | extraction fails exactly for unknown types, with the uploaded name in the message; PDFs and images read the blocks of the temporary copy |
| Files.PdfAndImageShareExtractor | app/services/image_to_text_service.py:68-69 | a PDF and an image go through the same extractor |
| Pdf.CollectPages | app/services/pdf_service.py:17-23 | the page loop computes the dictionary and the combined text, or stops at the first error |
| Pdf.ExtractTextFromPdf | app/services/pdf_service.py:4-29 | the function's result is the specification's, with errors prefixed |
| Pdf.PageTextsSpec | app/services/pdf_service.py:20-21 | reading succeeds exactly when every page does, giving the texts in page order; otherwise the error is that of the first page that fails |
| Pdf.PageMapSpec | app/services/pdf_service.py:20-22 | the keys are exactly 1 to n, and key `k` holds the text of page `k-1` counted from 0 |
| Pdf.PdfTextSpec | app/services/pdf_service.py:4-29 | extraction succeeds exactly when the file opens and every page reads, with keys 1 to n holding the pages' texts; otherwise the error is the prefix and the reason the file did not open, or the first failing page's error |
| Pdf.AllTextIsJoin | app/services/pdf_service.py:18-23 | the combined text is every page's text followed by a newline, that is, the texts joined by newlines plus a final newline |
| Pdf.NoPages | app/services/pdf_service.py:17-26 | a document with no pages gives an empty dictionary and empty text |
| Pdf.PdfErrorsPrefixed | app/services/pdf_service.py:28-29 | every failure comes back with the PDF error prefix, and success is passed through unchanged |
| Legacy.LegacyDecision | app.py:101-109 | an exception gives the fixed failure record; a blank generation moves on; otherwise the parse, else the stripped text kept as a string |
| Legacy.LegacySummarizeText | app.py:60-113 | the summary and the call count are those of the retry specification with the legacy decision |
| Legacy.LegacyOutcomeSpec | app.py:94-113 | at most three calls, all but the last blank; three blanks give the empty-response error; an exception gives the fixed failure record; otherwise the parse, or the raw stripped string, with no use of the extractor |
| Legacy.LegacyAgreesWithService | app.py:104-109 | when every generation is a non-exception reply that parses whenever it is non-blank, the legacy and service versions give the same outcome |
| Legacy.PassesAgreeOnObjects | app.py:115-126 | a legacy pass (`json.dumps` on every partial, with the same prefix, separator and recursion test) equals the service pass whenever every partial is a dict |
| Legacy.LegacyRecursiveSummarize | app.py:115-126 | when the legacy recursion ends, its summary is what the legacy `summarize_text` makes of the replies to a final-mode call on a combined text of at most `2 * max_words` words |
| Legacy.LegacyExtractPages | app.py:141-162 | the legacy page loop gives the same dictionary and text, and an error record with the raw message on failure |
| Legacy.LegacyPagesAgreeWithService | app.py:141-148 | the legacy page loop succeeds exactly when the service's does, with the same 1-based dictionary and combined text; the errors differ only by the prefix |
| Text.Strip | app/services/summarization_service.py:160 | the stripped text is empty exactly when the text is all whitespace, and otherwise starts and ends with a non-space |
| Text.StripIsSlice | app/services/question_service.py:53 | an all-whitespace text strips to the empty string; any other strips to the slice from its first non-space character to just after its last |
| Text.StripRemovesOnlySpace | app/services/summarization_service.py:160 | what stripping removes, before and after the slice it keeps, is whitespace only |
| Text.StripIdempotent | app/services/summarization_service.py:79-81 | stripping twice is stripping once |
| Text.LowerSpec | app/services/question_service.py:99 | lower-casing keeps the length, moves each capital `A`-`Z` to the small letter at the same place in the alphabet, leaves every other character unchanged, and leaves no capital |
| Text.LowerIdempotent | app/services/question_service.py:99 | lower-casing twice is lower-casing once |
| Text.FindFrom | app/services/summarization_service.py:73 | the substring search finds the leftmost occurrence, or none |
| Text.Find | app/services/summarization_service.py:92 | `find` gives the first index of the character, or -1 |
| Text.RFind | app/services/summarization_service.py:93 | `rfind` gives the last index of the character, or -1 |
| Text.SplitJoin | app/services/summarization_service.py:75 | joining the pieces of `split(sep)` with `sep` gives back the text |
| Text.SplitPiecesFree | app/services/summarization_service.py:75 | no piece of `split(sep)` contains `sep` |
| Text.SplitSingleIff | app/services/summarization_service.py:73-75 | the split has more than one piece exactly when the text contains the separator, and otherwise is the text alone |
| Text.WordCountJoin | app/services/summarization_service.py:198-200 | the word count of parts joined by whitespace is the sum of their word counts |
| Json.GetSet | app/services/academic_assistant_service.py:136-137 | after item assignment the key holds the new value and every other key is unchanged |
| Json.ErrorRecord | app/services/summarization_service.py:170 | an error record is a dict whose only key is `error`, holding the message |

## Left out

- The Bedrock `invoke_model` calls, the prompt wording, the model identifier and the generation parameters (temperature and `top_p` are floating-point constants). The backend is given as the reply each attempt receives, either a generation or an exception with its message. A missing `generation` key counts as an empty generation.
- Identical backend calls receive identical replies in the model. In the recursive functions the backend is a function from the call's text, context and mode to the replies of its attempts.
- spaCy sentence segmentation. The segmenter is a parameter that gives a text's sentences.
- The internals of `json.loads`, `json.dumps` and `str`. They are function parameters, and duplicate keys in parsed dicts are not modelled.
- PyMuPDF and Textract. A document is the result of reading each page, or the reason it could not be opened. The OCR service is a function from the temporary path to the detected blocks.
- Flask routing, request validation, CORS, configuration and the global client handles in `app/extensions.py`.
- Saving and removing temporary files. This is file-system I/O.
- Summarization.RecursiveSummarize: termination of the recursion is not modelled. The recursion depends on the model's output length and has no depth guard, so `Reduce` takes fuel and gives `None` when the fuel runs out.
- With a negative `max_words` and a text without sentences, every pass of `recursive_summarize` recurses on the empty string. In Python this ends only at the interpreter's recursion limit; in the model `Reduce` runs out of fuel and gives `None`. `PassOnEmpty` states the step.
- Unicode behaviour of `lower()`, `strip()`, `\s` and `\d`. The model uses ASCII letters and digits and Python's ASCII whitespace.
- The `print` logging in the exception handlers.
- `SUMMARY_KEYS`, which the code defines but never reads.
- Legacy.LegacyExtractPages: only the page loop is modelled. The legacy route's `try` also covers `recursive_summarize` and `os.remove`, whose exceptions this member does not include.
- Academic.GenerateAnswersForAllQuestions: each answer dict is annotated as a value and not updated in place. The source returns the annotated dicts themselves, and no caller can observe the difference.
