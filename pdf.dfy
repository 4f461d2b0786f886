/**
 * `extract_text_from_pdf` (`pdf_service.py`) and the same page loop in the
 * legacy application: the text of every page, keyed by its 1-based number,
 * and all of it combined, one newline after each page.
 */
module Pdf {
  import opened Wrappers
  import opened Text

  /** What opening the file gives: the result of reading each page's text in order, or the reason it could not be opened. */
  datatype Document = Opened(pages: seq<Result<string, string>>) | Unopenable(reason: string)

  const PdfErrorPrefix := "Error extracting text from PDF: "

  /** The page dictionary: page `k` (from 1) holds the `k`-th text. */
  function PageMap(texts: seq<string>): map<nat, string> {
    if texts == [] then map[]
    else PageMap(texts[..|texts| - 1])[|texts| := texts[|texts| - 1]]
  }

  /** All pages' text, each followed by a newline. */
  function AllText(texts: seq<string>): string {
    if texts == [] then ""
    else AllText(texts[..|texts| - 1]) + texts[|texts| - 1] + "\n"
  }

  /** The texts of the pages, or the first error met while reading them. */
  function PageTexts(pages: seq<Result<string, string>>): Result<seq<string>, string> {
    if pages == [] then Success([])
    else match PageTexts(pages[..|pages| - 1])
      case Failure(e) => Failure(e)
      case Success(texts) =>
        match pages[|pages| - 1]
        case Failure(e) => Failure(e)
        case Success(t) => Success(texts + [t])
  }

  /** The loop's outcome: the dictionary and the combined text, or the raw error (`str(e)`). */
  function PagesOutcome(doc: Document): Result<(map<nat, string>, string), string> {
    match doc
    case Unopenable(reason) => Failure(reason)
    case Opened(pages) =>
      match PageTexts(pages)
      case Failure(e) => Failure(e)
      case Success(texts) => Success((PageMap(texts), AllText(texts)))
  }

  /** `extract_text_from_pdf`: the loop's outcome, any error re-raised with the PDF prefix. */
  function PdfText(doc: Document): Result<(map<nat, string>, string), string> {
    match PagesOutcome(doc)
    case Failure(e) => Failure(PdfErrorPrefix + e)
    case Success(v) => Success(v)
  }

  /** The page loop: `result[i + 1] = text` and `all_text += text + "\n"`, stopping at the first error. */
  method CollectPages(doc: Document) returns (r: Result<(map<nat, string>, string), string>)
    ensures r == PagesOutcome(doc)
  {
    if doc.Unopenable? {
      return Failure(doc.reason);
    }
    var pages := doc.pages;
    var result: map<nat, string> := map[];
    var allText := "";
    ghost var texts: seq<string> := [];
    for i := 0 to |pages|
      invariant PageTexts(pages[..i]) == Success(texts)
      invariant result == PageMap(texts) && allText == AllText(texts)
    {
      assert pages[..i + 1][..i] == pages[..i];
      match pages[i]
      case Failure(e) =>
        PageTextsStopAt(pages, i + 1);
        return Failure(e);
      case Success(text) =>
        result := result[i + 1 := text];
        allText := allText + text + "\n";
        assert |texts| == i by {
          PageTextsLength(pages[..i]);
        }
        texts := texts + [text];
        assert texts[..|texts| - 1] + [text] == texts;
    }
    assert pages[..|pages|] == pages;
    r := Success((result, allText));
  }

  /** `extract_text_from_pdf`. */
  method ExtractTextFromPdf(doc: Document) returns (r: Result<(map<nat, string>, string), string>)
    ensures r == PdfText(doc)
  {
    var outcome := CollectPages(doc);
    if outcome.Failure? {
      return Failure(PdfErrorPrefix + outcome.error);
    }
    r := outcome;
  }

  /** When all pages were read there is one text per page. */
  lemma {:induction false} PageTextsLength(pages: seq<Result<string, string>>)
    ensures PageTexts(pages).Success? ==> |PageTexts(pages).value| == |pages|
  {
    if pages != [] {
      PageTextsLength(pages[..|pages| - 1]);
    }
  }

  /** An error in the first `n` pages is the error of the whole document. */
  lemma {:induction false} PageTextsStopAt(pages: seq<Result<string, string>>, n: nat)
    requires 0 < n <= |pages|
    requires PageTexts(pages[..n]).Failure?
    decreases |pages| - n
    ensures PageTexts(pages) == PageTexts(pages[..n])
  {
    if n < |pages| {
      assert pages[..n + 1][..n] == pages[..n];
      PageTextsStopAt(pages, n + 1);
    } else {
      assert pages[..n] == pages;
    }
  }

  /**
   * Reading succeeds exactly when every page does, and then gives the
   * pages' texts in order; otherwise it reports the first page's error.
   */
  lemma {:induction false} PageTextsSpec(pages: seq<Result<string, string>>)
    ensures PageTexts(pages).Success? <==> forall i :: 0 <= i < |pages| ==> pages[i].Success?
    ensures PageTexts(pages).Success? ==>
      |PageTexts(pages).value| == |pages| && forall i :: 0 <= i < |pages| ==> PageTexts(pages).value[i] == pages[i].value
    ensures PageTexts(pages).Failure? ==>
      exists i :: 0 <= i < |pages| && pages[i] == Failure(PageTexts(pages).error)
        && forall j :: 0 <= j < i ==> pages[j].Success?
  {
    if pages != [] {
      var init := pages[..|pages| - 1];
      PageTextsSpec(init);
      assert forall i :: 0 <= i < |init| ==> init[i] == pages[i];
      if PageTexts(init).Failure? {
        var i :| 0 <= i < |init| && init[i] == Failure(PageTexts(init).error)
          && forall j :: 0 <= j < i ==> init[j].Success?;
        assert pages[i] == Failure(PageTexts(pages).error);
      }
    }
  }

  /**
   * `extract_text_from_pdf` as a whole: it succeeds exactly when the file
   * opens and every page reads, with the keys 1 to n holding the pages'
   * texts in order; otherwise it reports, after the PDF prefix, the reason
   * the file did not open or the error of the first page that failed.
   */
  lemma PdfTextSpec(doc: Document)
    ensures PdfText(doc).Success? <==> doc.Opened? && forall i :: 0 <= i < |doc.pages| ==> doc.pages[i].Success?
    ensures PdfText(doc).Success? ==>
      && (forall k: nat :: k in PdfText(doc).value.0 <==> 1 <= k <= |doc.pages|)
      && (forall k: nat :: 1 <= k <= |doc.pages| ==> PdfText(doc).value.0[k] == doc.pages[k - 1].value)
    ensures doc.Unopenable? ==> PdfText(doc) == Failure(PdfErrorPrefix + doc.reason)
    ensures doc.Opened? && PdfText(doc).Failure? ==>
      exists i, e :: 0 <= i < |doc.pages| && doc.pages[i] == Failure(e) && PdfText(doc).error == PdfErrorPrefix + e
        && forall j :: 0 <= j < i ==> doc.pages[j].Success?
  {
    if doc.Opened? {
      PageTextsSpec(doc.pages);
      if PageTexts(doc.pages).Success? {
        PageMapSpec(PageTexts(doc.pages).value);
      } else {
        var e := PageTexts(doc.pages).error;
        var i :| 0 <= i < |doc.pages| && doc.pages[i] == Failure(e)
          && forall j :: 0 <= j < i ==> doc.pages[j].Success?;
        assert PdfText(doc).error == PdfErrorPrefix + e;
      }
    }
  }

  /** The dictionary's keys are exactly 1 to n, and page `k` holds the `k`-th text. */
  lemma {:induction false} PageMapSpec(texts: seq<string>)
    ensures forall k: nat :: k in PageMap(texts) <==> 1 <= k <= |texts|
    ensures forall k: nat :: 1 <= k <= |texts| ==> PageMap(texts)[k] == texts[k - 1]
  {
    if texts != [] {
      var init := texts[..|texts| - 1];
      PageMapSpec(init);
      assert forall k :: 0 <= k < |init| ==> init[k] == texts[k];
    }
  }

  /** The combined text is the pages joined by newlines, with one more newline at the end. */
  lemma {:induction false} AllTextIsJoin(texts: seq<string>)
    ensures texts != [] ==> AllText(texts) == Join(texts, "\n") + "\n"
  {
    if |texts| > 1 {
      var init := texts[..|texts| - 1];
      AllTextIsJoin(init);
      JoinSnoc(init, texts[|texts| - 1], "\n");
      assert init + [texts[|texts| - 1]] == texts;
    } else if |texts| == 1 {
      assert texts[..0] == [];
    }
  }

  /** Joining one more part adds the separator and the part at the end. */
  lemma {:induction false} JoinSnoc(parts: seq<string>, p: string, sep: string)
    requires parts != []
    ensures Join(parts + [p], sep) == Join(parts, sep) + sep + p
  {
    if |parts| > 1 {
      assert (parts + [p])[1..] == parts[1..] + [p];
      JoinSnoc(parts[1..], p, sep);
    }
  }

  /** A document of no pages gives an empty dictionary and no text. */
  lemma NoPages()
    ensures PdfText(Opened([])) == Success((map[], ""))
  {
  }

  /** Every error comes back with the PDF prefix. */
  lemma PdfErrorsPrefixed(doc: Document)
    ensures PdfText(doc).Failure? <==> PagesOutcome(doc).Failure?
    ensures PdfText(doc).Failure? ==> PdfText(doc).error == PdfErrorPrefix + PagesOutcome(doc).error
    ensures PdfText(doc).Success? ==> PdfText(doc) == PagesOutcome(doc)
  {
  }
}
