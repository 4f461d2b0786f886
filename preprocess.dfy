/**
 * `preprocess_question_paper` (`preprocess.py`): splitting an exam paper
 * into the context before the first question, and one record per question
 * marker with its text and its marks.
 *
 * The three regular expressions are written as matchers (the length of the
 * match at a position) driven by one leftmost, non-overlapping scanner, as
 * `re.search`, `re.split` and `re.sub` drive theirs:
 *   `Q\.?1`              the start of the first question,
 *   `Q\.?\d+`            a question marker,
 *   `\[\d+\s*Marks?\]`   a marks annotation.
 */
module Preprocess {
  import opened Wrappers
  import opened Text
  import opened Seqs

  // ---------------------------------------------------------------------------
  // The scanner

  /** The length of the match of a fixed pattern at a position; 0 where it does not match there. */
  type Matcher = (string, nat) -> nat

  /** Where a match at `p` ends (never past the end of the text). */
  function MatchEnd(s: string, p: nat, m: Matcher): (q: nat)
    requires p <= |s|
    ensures p <= q <= |s|
  {
    if p + m(s, p) <= |s| then p + m(s, p) else |s|
  }

  /** `re.search` from `from`: the leftmost position where the pattern matches. */
  function Search(s: string, from: nat, m: Matcher): (r: Option<nat>)
    decreases |s| - from
    ensures r.Some? ==> from <= r.value < |s| && m(s, r.value) > 0
    ensures r.Some? ==> forall k :: from <= k < r.value ==> m(s, k) == 0
    ensures r.None? ==> forall k :: from <= k < |s| ==> m(s, k) == 0
  {
    if from >= |s| then None
    else if m(s, from) > 0 then Some(from)
    else Search(s, from + 1, m)
  }

  /**
   * `re.split` with the whole pattern captured, on `s[from..]`: the text
   * before each match, the match itself, and the text after the last one.
   */
  function SplitBy(s: string, from: nat, m: Matcher): (parts: seq<string>)
    requires from <= |s|
    decreases |s| - from
    ensures |parts| % 2 == 1
  {
    match Search(s, from, m)
    case None => [s[from..]]
    case Some(p) =>
      var q := MatchEnd(s, p, m);
      [s[from..p], s[p..q]] + SplitBy(s, q, m)
  }

  /** `re.sub(pattern, '', s[from..])`: every match, scanning left to right, removed. */
  function RemoveAll(s: string, from: nat, m: Matcher): (r: string)
    requires from <= |s|
    decreases |s| - from
    ensures |r| <= |s| - from
  {
    match Search(s, from, m)
    case None => s[from..]
    case Some(p) => s[from..p] + RemoveAll(s, MatchEnd(s, p, m), m)
  }

  /** Concatenating the pieces of a split gives back the text. */
  lemma {:induction false} SplitByCover(s: string, from: nat, m: Matcher)
    requires from <= |s|
    decreases |s| - from
    ensures Flatten(SplitBy(s, from, m)) == s[from..]
  {
    match Search(s, from, m)
    case None =>
      assert Flatten([s[from..]]) == s[from..] + Flatten([]);
    case Some(p) =>
      var q := MatchEnd(s, p, m);
      var rest := SplitBy(s, q, m);
      SplitByCover(s, q, m);
      FlattenPair(s[from..p], s[p..q], rest);
      assert s[from..] == s[from..p] + s[p..q] + s[q..];
  }

  /** Where each piece of the split starts, then the end of the text. */
  function Cuts(s: string, from: nat, m: Matcher): (cs: seq<nat>)
    requires from <= |s|
    decreases |s| - from
    ensures |cs| == |SplitBy(s, from, m)| + 1
  {
    match Search(s, from, m)
    case None => [from, |s|]
    case Some(p) => [from, p] + Cuts(s, MatchEnd(s, p, m), m)
  }

  /** Piece `k` of a split is `s[a..b]`: a whole match when `k` is odd, a stretch without a match start when even. */
  predicate PieceAt(s: string, m: Matcher, piece: string, k: nat, a: nat, b: nat) {
    && a <= b <= |s| && piece == s[a..b]
    && (k % 2 == 1 ==> m(s, a) > 0 && b == MatchEnd(s, a, m))
    && (k % 2 == 0 ==> forall j :: a <= j < b ==> m(s, j) == 0)
  }

  /** Odd pieces are the matches found, even pieces the text between them. */
  lemma {:induction false} SplitByPieces(s: string, from: nat, m: Matcher)
    requires from <= |s|
    decreases |s| - from
    ensures forall k :: 0 <= k < |SplitBy(s, from, m)| ==>
      from <= Cuts(s, from, m)[k] && PieceAt(s, m, SplitBy(s, from, m)[k], k, Cuts(s, from, m)[k], Cuts(s, from, m)[k + 1])
  {
    var parts := SplitBy(s, from, m);
    var cs := Cuts(s, from, m);
    match Search(s, from, m)
    case None =>
      assert PieceAt(s, m, parts[0], 0, cs[0], cs[1]);
    case Some(p) =>
      var q := MatchEnd(s, p, m);
      SplitByPieces(s, q, m);
      assert Cuts(s, q, m)[0] == q;
      PiecesCons(s, m, from, p, q, SplitBy(s, q, m), Cuts(s, q, m));
  }

  /** A gap and a match in front of the pieces of the rest of the split keep every piece in its place. */
  lemma PiecesCons(s: string, m: Matcher, from: nat, p: nat, q: nat, rest: seq<string>, restCuts: seq<nat>)
    requires from <= p <= q <= |s| && |restCuts| == |rest| + 1 && restCuts[0] == q
    requires PieceAt(s, m, s[from..p], 0, from, p) && PieceAt(s, m, s[p..q], 1, p, q)
    requires forall k :: 0 <= k < |rest| ==> q <= restCuts[k] && PieceAt(s, m, rest[k], k, restCuts[k], restCuts[k + 1])
    ensures var parts, cs := [s[from..p], s[p..q]] + rest, [from, p] + restCuts;
      forall k :: 0 <= k < |parts| ==> from <= cs[k] && PieceAt(s, m, parts[k], k, cs[k], cs[k + 1])
  {
    var parts, cs := [s[from..p], s[p..q]] + rest, [from, p] + restCuts;
    forall k | 0 <= k < |parts| ensures from <= cs[k] && PieceAt(s, m, parts[k], k, cs[k], cs[k + 1]) {
      if k >= 2 {
        assert parts[k] == rest[k - 2];
        assert cs[k] == restCuts[k - 2] && cs[k + 1] == restCuts[k - 1];
        assert PieceAt(s, m, rest[k - 2], k - 2, restCuts[k - 2], restCuts[k - 1]);
      }
    }
  }

  /** The pieces at even indices. */
  function Evens<T>(parts: seq<seq<T>>): seq<seq<T>> {
    if |parts| <= 1 then parts else [parts[0]] + Evens(parts[2..])
  }

  /** Removing the matches is joining the pieces between them: `re.sub` and `re.split` agree. */
  lemma {:induction false} RemoveAllIsGaps(s: string, from: nat, m: Matcher)
    requires from <= |s|
    decreases |s| - from
    ensures RemoveAll(s, from, m) == Flatten(Evens(SplitBy(s, from, m)))
  {
    match Search(s, from, m)
    case None =>
      assert Flatten([s[from..]]) == s[from..] + Flatten([]);
    case Some(p) =>
      var q := MatchEnd(s, p, m);
      var rest := SplitBy(s, q, m);
      RemoveAllIsGaps(s, q, m);
      var parts := [s[from..p], s[p..q]] + rest;
      assert parts[2..] == rest;
      assert Evens(parts) == [s[from..p]] + Evens(rest);
  }

  /** With no match, the split is the text alone and removal changes nothing. */
  lemma NoMatch(s: string, m: Matcher)
    requires forall k :: 0 <= k < |s| ==> m(s, k) == 0
    ensures SplitBy(s, 0, m) == [s] && RemoveAll(s, 0, m) == s
  {
    assert Search(s, 0, m).None?;
    assert s[0..] == s;
  }

  // ---------------------------------------------------------------------------
  // Character classes and numbers

  /** The length of the run of characters of a class starting at `p` (greedy `\d+` or `\s*`). */
  function Run(s: string, p: nat, inClass: char -> bool): (n: nat)
    decreases |s| - p
    ensures p > |s| ==> n == 0
    ensures p <= |s| ==> p + n <= |s|
    ensures forall k :: p <= k < p + n ==> inClass(s[k])
    ensures p + n < |s| ==> !inClass(s[p + n])
  {
    if p < |s| && inClass(s[p]) then 1 + Run(s, p + 1, inClass) else 0
  }

  function DigitValue(c: char): nat {
    if IsDigit(c) then (c as int) - ('0' as int) else 0
  }

  /** `int(ds)` for a run of ASCII digits. */
  function DigitsValue(ds: string): nat {
    if ds == [] then 0
    else DigitsValue(ds[..|ds| - 1]) * 10 + DigitValue(ds[|ds| - 1])
  }

  function DigitChar(d: nat): (c: char)
    requires d < 10
    ensures IsDigit(c) && DigitValue(c) == d
  {
    ('0' as int + d) as char
  }

  /** The decimal digits of `n`, most significant first (`str(n)`, empty for 0). */
  function Decimal(n: nat): (ds: string)
    ensures forall k :: 0 <= k < |ds| ==> IsDigit(ds[k])
    ensures n > 0 ==> |ds| >= 1
  {
    if n == 0 then "" else Decimal(n / 10) + [DigitChar(n % 10)]
  }

  /** Reading back the digits of a number gives the number. */
  lemma {:induction false} DigitsValueDecimal(n: nat)
    ensures DigitsValue(Decimal(n)) == n
  {
    if n > 0 {
      DigitsValueDecimal(n / 10);
      var ds := Decimal(n);
      assert ds[..|ds| - 1] == Decimal(n / 10);
    }
  }

  // ---------------------------------------------------------------------------
  // `Q\.?1`: where the questions start

  /** `Q\.?1` matches at `p`. */
  predicate Q1At(s: string, p: nat) {
    && p < |s| && s[p] == 'Q'
    && ((p + 1 < |s| && s[p + 1] == '1') || (p + 2 < |s| && s[p + 1] == '.' && s[p + 2] == '1'))
  }

  function Q1Len(s: string, p: nat): (n: nat)
    ensures n > 0 <==> Q1At(s, p)
  {
    if !Q1At(s, p) then 0 else if s[p + 1] == '1' then 2 else 3
  }

  /** The text before the first question, unstripped (`""` when there is none). */
  function ContextText(text: string): string {
    match Search(text, 0, Q1Len)
    case Some(p) => text[..p]
    case None => ""
  }

  /** The questions section: from the first question on, or the whole text when there is none. */
  function Section(text: string): string {
    match Search(text, 0, Q1Len)
    case Some(p) => text[p..]
    case None => text
  }

  /**
   * The context is the text before the leftmost `Q1` or `Q.1`, the section
   * the rest; with no such match the context is empty and the section is the
   * whole text.
   */
  lemma ContextSectionSplit(text: string)
    ensures Search(text, 0, Q1Len).None? ==> ContextText(text) == "" && Section(text) == text
    ensures Search(text, 0, Q1Len).Some? ==> ContextText(text) + Section(text) == text
    ensures forall k :: 0 <= k < |ContextText(text)| ==> !Q1At(text, k)
  {
    match Search(text, 0, Q1Len)
    case Some(p) =>
      assert text[..p] + text[p..] == text;
      forall k | 0 <= k < p ensures !Q1At(text, k) {
        assert Q1Len(text, k) == 0;
      }
    case None =>
  }

  // ---------------------------------------------------------------------------
  // `Q\.?\d+`: question markers

  /** `Q\.?\d+` matches at `p` (the dot is taken only when a digit follows it). */
  predicate MarkerAt(s: string, p: nat) {
    && p < |s| && s[p] == 'Q'
    && ((p + 1 < |s| && IsDigit(s[p + 1])) || (p + 2 < |s| && s[p + 1] == '.' && IsDigit(s[p + 2])))
  }

  /** The length of the match of `Q\.?\d+` at `p`, with greedy digits. */
  function MarkerLen(s: string, p: nat): (n: nat)
    ensures n > 0 <==> MarkerAt(s, p)
    ensures n > 0 ==> p + n <= |s|
  {
    if !MarkerAt(s, p) then 0
    else if s[p + 1] == '.' then 2 + Run(s, p + 2, IsDigit)
    else 1 + Run(s, p + 1, IsDigit)
  }

  /** A question number as the marker matches it: `Q`, an optional `.`, then one or more digits. */
  predicate MarkerToken(t: string) {
    && |t| >= 2 && t[0] == 'Q'
    && (if t[1] == '.' then |t| >= 3 && forall k :: 2 <= k < |t| ==> IsDigit(t[k])
        else forall k :: 1 <= k < |t| ==> IsDigit(t[k]))
  }

  /** The text a marker match covers is a question number, and its digits run to the end of the match. */
  lemma MarkerMatchIsToken(s: string, p: nat)
    requires MarkerAt(s, p)
    ensures MatchEnd(s, p, MarkerLen) == p + MarkerLen(s, p)
    ensures MarkerToken(s[p..p + MarkerLen(s, p)])
    ensures p + MarkerLen(s, p) < |s| ==> !IsDigit(s[p + MarkerLen(s, p)])
  {
    var t := s[p..p + MarkerLen(s, p)];
    assert t[0] == s[p] && t[1] == s[p + 1];
    forall k | 1 <= k < |t| ensures t[k] == s[p + k] {
    }
  }

  /** A question number has no surrounding whitespace: stripping it changes nothing. */
  lemma MarkerTokenStripped(t: string)
    requires MarkerToken(t)
    ensures Strip(t) == t
  {
    assert !IsSpace(t[0]);
    assert IsDigit(t[|t| - 1]);
    assert SkipSpaces(t, 0) == 0 && SkipSpacesBack(t, |t|) == |t|;
    StripIsSlice(t);
    assert t[0..|t|] == t;
  }

  /** A stretch of text without a marker start holds no marker: the pattern only looks at the next three characters. */
  lemma NoMarkerInSlice(s: string, a: nat, b: nat)
    requires a <= b <= |s|
    requires forall j :: a <= j < b ==> !MarkerAt(s, j)
    ensures forall j :: 0 <= j < b - a ==> !MarkerAt(s[a..b], j)
  {
    var t := s[a..b];
    forall j | 0 <= j < b - a ensures !MarkerAt(t, j) {
      assert t[j] == s[a + j];
      if j + 1 < |t| {
        assert t[j + 1] == s[a + j + 1];
      }
      if j + 2 < |t| {
        assert t[j + 2] == s[a + j + 2];
      }
      assert !MarkerAt(s, a + j);
    }
  }

  /** When the first question was found, the section starts with a marker: nothing precedes it in the split. */
  lemma SectionStartsWithMarker(text: string)
    requires Search(text, 0, Q1Len).Some?
    ensures SplitBy(Section(text), 0, MarkerLen)[0] == ""
    ensures |SplitBy(Section(text), 0, MarkerLen)| >= 3
  {
    var p := Search(text, 0, Q1Len).value;
    var sec := text[p..];
    assert sec[0] == text[p] && sec[1] == text[p + 1];
    if text[p + 1] == '.' {
      assert sec[2] == text[p + 2];
    }
    assert MarkerAt(sec, 0);
    assert Search(sec, 0, MarkerLen) == Some(0);
  }

  // ---------------------------------------------------------------------------
  // `\[\d+\s*Marks?\]`: marks annotations

  /** The word `Mark` starts at `q`. */
  predicate MarkWordAt(s: string, q: nat) {
    q + 4 <= |s| && s[q] == 'M' && s[q + 1] == 'a' && s[q + 2] == 'r' && s[q + 3] == 'k'
  }

  /** The length of the match of `Marks?\]` at `q`, or 0. */
  function MarksWordLen(s: string, q: nat): (t: nat)
    ensures t > 0 ==> q + t <= |s| && 5 <= t <= 6 && s[q + t - 1] == ']'
  {
    if !MarkWordAt(s, q) then 0
    else if q + 4 < |s| && s[q + 4] == ']' then 5
    else if q + 5 < |s| && s[q + 4] == 's' && s[q + 5] == ']' then 6
    else 0
  }

  /** The length of the match of `\[\d+\s*Marks?\]` at `p`, or 0. */
  function MarksLen(s: string, p: nat): (n: nat)
    ensures n > 0 ==> p + n <= |s| && n >= 7 && s[p] == '[' && s[p + n - 1] == ']'
    ensures n > 0 ==> Run(s, p + 1, IsDigit) >= 1
  {
    if p < |s| && s[p] == '[' then
      var d := Run(s, p + 1, IsDigit);
      var q := p + 1 + d + Run(s, p + 1 + d, IsSpace);
      if d == 0 || MarksWordLen(s, q) == 0 then 0
      else q + MarksWordLen(s, q) - p
    else 0
  }

  /** Exactly `d` characters of the class from `a`, then one outside it: the run is `d` long. */
  lemma RunIs(s: string, a: nat, d: nat, inClass: char -> bool)
    requires a + d < |s|
    requires forall k :: a <= k < a + d ==> inClass(s[k])
    requires !inClass(s[a + d])
    ensures Run(s, a, inClass) == d
  {
  }

  /**
   * Every text of the form `[`, one or more digits, any whitespace, `Mark`,
   * an optional `s` and `]` is matched, as a whole.
   */
  lemma MarksLenComplete(s: string, p: nat, d: nat, w: nat, plural: bool)
    requires p + 5 + d + w + (if plural then 1 else 0) < |s|
    requires s[p] == '[' && d >= 1
    requires forall k :: p + 1 <= k < p + 1 + d ==> IsDigit(s[k])
    requires forall k :: p + 1 + d <= k < p + 1 + d + w ==> IsSpace(s[k])
    requires MarkWordAt(s, p + 1 + d + w)
    requires plural ==> s[p + 5 + d + w] == 's'
    requires s[p + 5 + d + w + (if plural then 1 else 0)] == ']'
    ensures MarksLen(s, p) == 6 + d + w + (if plural then 1 else 0)
  {
    var q := p + 1 + d + w;
    assert Run(s, p + 1, IsDigit) == d by {
      MarksDigitsRun(s, p, d, w);
    }
    assert Run(s, p + 1 + d, IsSpace) == w by {
      RunIs(s, p + 1 + d, w, IsSpace);
    }
    MarksWordLenOf(s, q, plural);
    MarksLenAt(s, p, d, w);
  }

  /** `Mark`, an optional `s` and `]` match as a whole. */
  lemma MarksWordLenOf(s: string, q: nat, plural: bool)
    requires q + 4 + (if plural then 1 else 0) < |s|
    requires MarkWordAt(s, q)
    requires plural ==> s[q + 4] == 's'
    requires s[q + 4 + (if plural then 1 else 0)] == ']'
    ensures MarksWordLen(s, q) == 5 + (if plural then 1 else 0)
  {
  }

  /** After a digit run of `d` and a whitespace run of `w`, the match at `p` runs to the end of `Marks?]`. */
  lemma MarksLenAt(s: string, p: nat, d: nat, w: nat)
    requires p < |s| && s[p] == '[' && 1 <= d
    requires Run(s, p + 1, IsDigit) == d && Run(s, p + 1 + d, IsSpace) == w
    ensures MarksLen(s, p) == if MarksWordLen(s, p + 1 + d + w) == 0 then 0 else 1 + d + w + MarksWordLen(s, p + 1 + d + w)
  {
  }

  /** The digits of such a text are its whole digit run, so they give its number. */
  lemma MarksDigitsRun(s: string, p: nat, d: nat, w: nat)
    requires p + 1 + d + w < |s|
    requires forall k :: p + 1 <= k < p + 1 + d ==> IsDigit(s[k])
    requires forall k :: p + 1 + d <= k < p + 1 + d + w ==> IsSpace(s[k])
    requires s[p + 1 + d + w] == 'M'
    ensures Run(s, p + 1, IsDigit) == d
    ensures MarksValue(s, p) == DigitsValue(s[p + 1..p + 1 + d])
  {
    RunIs(s, p + 1, d, IsDigit);
  }

  /** `int(match.group(1))`: the number written in the annotation at `p`. */
  function MarksValue(s: string, p: nat): nat
    requires p < |s|
  {
    DigitsValue(s[p + 1..p + 1 + Run(s, p + 1, IsDigit)])
  }

  /** The block that opens with the annotation `[n Marks]`. */
  function Annotated(n: nat, rest: string): string {
    "[" + Decimal(n) + " Marks]" + rest
  }

  /** The digits of `n` follow the bracket, and the run of digits stops at the space after them. */
  lemma AnnotatedDigits(n: nat, rest: string)
    ensures var block, d := Annotated(n, rest), |Decimal(n)|;
      && 8 + d <= |block| && block[1..1 + d] == Decimal(n) && Run(block, 1, IsDigit) == d
  {
    var ds := Decimal(n);
    var block := Annotated(n, rest);
    var d := |ds|;
    assert forall k :: 0 <= k < d ==> block[1 + k] == ds[k];
    assert block[1 + d] == ' ';
    RunIs(block, 1, d, IsDigit);
  }

  /** The middle of a concatenation of three texts is the middle text. */
  lemma MiddleOfConcat(a: string, w: string, rest: string)
    ensures (a + w + rest)[|a|..|a| + |w|] == w
  {
  }

  /** The annotation `[n Marks]` matches the pattern from its bracket to its closing bracket. */
  lemma AnnotatedMatch(n: nat, rest: string)
    requires n > 0
    ensures MarksLen(Annotated(n, rest), 0) == 8 + |Decimal(n)|
  {
    var block := Annotated(n, rest);
    var d := |Decimal(n)|;
    AnnotatedDigits(n, rest);
    assert block[1 + d] == ' ' && block[2 + d] == 'M' && block[3 + d] == 'a' && block[4 + d] == 'r'
        && block[5 + d] == 'k' && block[6 + d] == 's' && block[7 + d] == ']' by {
      MiddleOfConcat("[" + Decimal(n), " Marks]", rest);
      var w := block[1 + d..8 + d];
      assert w == " Marks]";
      assert block[1 + d] == w[0] && block[2 + d] == w[1] && block[3 + d] == w[2] && block[4 + d] == w[3];
      assert block[5 + d] == w[4] && block[6 + d] == w[5] && block[7 + d] == w[6];
    }
    assert Run(block, 1 + d, IsSpace) == 1 by {
      assert Run(block, 2 + d, IsSpace) == 0;
    }
    assert MarksWordLen(block, 2 + d) == 6;
    MarksLenAt(block, 0, d, 1);
  }

  /** A block that opens with `[n Marks]` is worth `n` marks. */
  lemma MarksOfAnnotation(n: nat, rest: string)
    requires n > 0
    ensures Search(Annotated(n, rest), 0, MarksLen) == Some(0)
    ensures MarksValue(Annotated(n, rest), 0) == n
  {
    AnnotationFound(n, rest);
    AnnotationValue(n, rest);
  }

  /** The search for an annotation stops at the one that opens the block. */
  lemma AnnotationFound(n: nat, rest: string)
    requires n > 0
    ensures Search(Annotated(n, rest), 0, MarksLen) == Some(0)
  {
    AnnotatedMatch(n, rest);
  }

  /** The annotation `[n Marks]` reads as `n`. */
  lemma AnnotationValue(n: nat, rest: string)
    ensures MarksValue(Annotated(n, rest), 0) == n
  {
    var block := Annotated(n, rest);
    AnnotatedDigits(n, rest);
    assert block[1..1 + Run(block, 1, IsDigit)] == Decimal(n);
    DigitsValueDecimal(n);
  }

  // ---------------------------------------------------------------------------
  // Records

  /** A question as the preprocessor returns it. */
  datatype QuestionRecord = QuestionRecord(questionNumber: string, questionText: string, marks: Option<nat>)

  /** The preprocessed paper. */
  datatype Paper = Paper(context: string, questions: seq<QuestionRecord>)

  /** The record for one marker and the block of text after it. */
  function BlockRecord(token: string, block: string): QuestionRecord {
    match Search(block, 0, MarksLen)
    case Some(p) => QuestionRecord(Strip(token), Strip(RemoveAll(block, 0, MarksLen)), Some(MarksValue(block, p)))
    case None => QuestionRecord(Strip(token), Strip(block), None)
  }

  /**
   * The marks are those of the first annotation, or none; the question text
   * is the block with every annotation removed, then stripped, whether or
   * not there was one.
   */
  lemma BlockRecordSpec(token: string, block: string)
    ensures BlockRecord(token, block).questionNumber == Strip(token)
    ensures BlockRecord(token, block).questionText == Strip(RemoveAll(block, 0, MarksLen))
    ensures Search(block, 0, MarksLen).None? <==> BlockRecord(token, block).marks.None?
    ensures Search(block, 0, MarksLen).Some? ==>
      BlockRecord(token, block).marks == Some(MarksValue(block, Search(block, 0, MarksLen).value))
  {
    if Search(block, 0, MarksLen).None? {
      NoMatch(block, MarksLen);
    }
  }

  /** The pieces `re.split` leaves of the questions section. */
  function Blocks(text: string): (parts: seq<string>)
    ensures |parts| % 2 == 1
  {
    SplitBy(Section(text), 0, MarkerLen)
  }

  /** How one marker and the block after it become a record. */
  type Recorder = (string, string) -> QuestionRecord

  /** The records of the first `n` markers. */
  function Records(blocks: seq<string>, n: nat, record: Recorder): (rs: seq<QuestionRecord>)
    requires 2 * n < |blocks|
    ensures |rs| == n
  {
    if n == 0 then []
    else Records(blocks, n - 1, record) + [record(blocks[2 * n - 1], blocks[2 * n])]
  }

  /** Record `t` is made from marker `t` and the block after it. */
  lemma {:induction false} RecordsAt(blocks: seq<string>, n: nat, record: Recorder)
    requires 2 * n < |blocks|
    ensures |Records(blocks, n, record)| == n
    ensures forall t :: 0 <= t < n ==> Records(blocks, n, record)[t] == record(blocks[2 * t + 1], blocks[2 * t + 2])
  {
    if n > 0 {
      RecordsAt(blocks, n - 1, record);
    }
  }

  /** The records `preprocess_question_paper` builds, one per marker. */
  function Questions(text: string): seq<QuestionRecord> {
    Records(Blocks(text), |Blocks(text)| / 2, BlockRecord)
  }

  /** What `preprocess_question_paper` returns. */
  function Preprocessed(text: string): Paper {
    Paper(Strip(ContextText(text)), Questions(text))
  }

  /** The loop of `preprocess_question_paper`: markers at odd indices, each with the block after it. */
  method CollectRecords(blocks: seq<string>, record: Recorder) returns (questions: seq<QuestionRecord>)
    requires |blocks| % 2 == 1
    ensures questions == Records(blocks, |blocks| / 2, record)
  {
    ghost var half := |blocks| / 2;
    questions := [];
    var i := 1;
    ghost var n := 0;
    while i < |blocks|
      invariant i == 2 * n + 1 && n <= half
      invariant questions == Records(blocks, n, record)
    {
      questions := questions + [record(blocks[i], blocks[i + 1])];
      i := i + 2;
      n := n + 1;
    }
  }

  /** `preprocess_question_paper`. */
  method PreprocessQuestionPaper(text: string) returns (paper: Paper)
    ensures paper == Preprocessed(text)
  {
    var start := Search(text, 0, Q1Len);
    var context := if start.Some? then text[..start.value] else "";
    var section := if start.Some? then text[start.value..] else text;
    var blocks := SplitBy(section, 0, MarkerLen);
    var questions := CollectRecords(blocks, BlockRecord);
    paper := Paper(Strip(context), questions);
  }

  /** Every odd piece of a split on markers is a question number. */
  lemma SplitTokens(sec: string, k: nat)
    requires k < |SplitBy(sec, 0, MarkerLen)| && k % 2 == 1
    ensures MarkerToken(SplitBy(sec, 0, MarkerLen)[k])
  {
    var cs := Cuts(sec, 0, MarkerLen);
    assert PieceAt(sec, MarkerLen, SplitBy(sec, 0, MarkerLen)[k], k, cs[k], cs[k + 1]) by {
      SplitByPieces(sec, 0, MarkerLen);
    }
    OddPieceIsToken(sec, SplitBy(sec, 0, MarkerLen)[k], k, cs[k], cs[k + 1]);
  }

  /** A piece that is a whole marker match is a question number. */
  lemma OddPieceIsToken(s: string, piece: string, k: nat, a: nat, b: nat)
    requires k % 2 == 1 && PieceAt(s, MarkerLen, piece, k, a, b)
    ensures MarkerToken(piece)
  {
    MarkerMatchIsToken(s, a);
  }

  /** There is one record per marker in the section, numbered by that marker exactly as matched. */
  lemma QuestionNumbersAreMarkers(text: string, t: nat)
    requires t < |Blocks(text)| / 2
    ensures |Questions(text)| == |Blocks(text)| / 2
    ensures MarkerToken(Blocks(text)[2 * t + 1])
    ensures Questions(text)[t].questionNumber == Blocks(text)[2 * t + 1]
  {
    var blocks := Blocks(text);
    assert MarkerToken(blocks[2 * t + 1]) by {
      OddBlockIsMarker(text, 2 * t + 1);
    }
    RecordNumberIsMarker(blocks, t);
  }

  /** Every odd-indexed block of the questions section is a question number. */
  lemma OddBlockIsMarker(text: string, k: nat)
    requires k < |Blocks(text)| && k % 2 == 1
    ensures MarkerToken(Blocks(text)[k])
  {
    SplitTokens(Section(text), k);
  }

  /** A record made from a question number carries that number unchanged. */
  lemma RecordNumberIsMarker(blocks: seq<string>, t: nat)
    requires |blocks| % 2 == 1 && t < |blocks| / 2 && MarkerToken(blocks[2 * t + 1])
    ensures |Records(blocks, |blocks| / 2, BlockRecord)| == |blocks| / 2
    ensures Records(blocks, |blocks| / 2, BlockRecord)[t].questionNumber == blocks[2 * t + 1]
  {
    MarkerTokenStripped(blocks[2 * t + 1]);
    RecordNumber(blocks, t);
  }

  /** Record `t` is numbered by the stripped marker it was made from, and holds the block after it without annotations. */
  lemma RecordNumber(blocks: seq<string>, t: nat)
    requires |blocks| % 2 == 1 && t < |blocks| / 2
    ensures |Records(blocks, |blocks| / 2, BlockRecord)| == |blocks| / 2
    ensures Records(blocks, |blocks| / 2, BlockRecord)[t].questionNumber == Strip(blocks[2 * t + 1])
    ensures Records(blocks, |blocks| / 2, BlockRecord)[t].questionText == Strip(RemoveAll(blocks[2 * t + 2], 0, MarksLen))
  {
    RecordsAt(blocks, |blocks| / 2, BlockRecord);
    BlockRecordSpec(blocks[2 * t + 1], blocks[2 * t + 2]);
  }

  /** The text of question `t` is the block after its marker, every annotation removed, stripped. */
  lemma QuestionTextIsBlock(text: string, t: nat)
    requires t < |Blocks(text)| / 2
    ensures |Questions(text)| == |Blocks(text)| / 2
    ensures Questions(text)[t].questionText == Strip(RemoveAll(Blocks(text)[2 * t + 2], 0, MarksLen))
  {
    RecordNumber(Blocks(text), t);
  }

  /** No marker begins inside the text a block holds. */
  lemma BlocksHoldNoMarker(text: string, k: nat, j: nat)
    requires k < |Blocks(text)| && k % 2 == 0 && j < |Blocks(text)[k]|
    ensures !MarkerAt(Blocks(text)[k], j)
  {
    var sec := Section(text);
    SplitByPieces(sec, 0, MarkerLen);
    var cs := Cuts(sec, 0, MarkerLen);
    assert PieceAt(sec, MarkerLen, Blocks(text)[k], k, cs[k], cs[k + 1]);
    forall i | cs[k] <= i < cs[k + 1] ensures !MarkerAt(sec, i) {
      assert MarkerLen(sec, i) == 0;
    }
    NoMarkerInSlice(sec, cs[k], cs[k + 1]);
  }

  /** The blocks put together are the section again: the split loses no text. */
  lemma BlocksCoverSection(text: string)
    ensures Flatten(Blocks(text)) == Section(text)
  {
    SplitByCover(Section(text), 0, MarkerLen);
    assert Section(text)[0..] == Section(text);
  }

  /** A section without a marker gives no question record. */
  lemma NoMarkerNoQuestions(text: string)
    requires forall k :: 0 <= k < |Section(text)| ==> !MarkerAt(Section(text), k)
    ensures Preprocessed(text).questions == []
  {
    NoMatch(Section(text), MarkerLen);
  }
}
