/**
 * The upload front end (`image_to_text_service.py`): telling PDFs from
 * images by the file name, naming the temporary copy, and keeping the LINE
 * blocks of the text-detection response.
 */
module Files {
  import opened Wrappers
  import opened Text
  import opened Seqs

  datatype FileType = Pdf | Image | Unknown

  const PdfExtension := ".pdf"
  const ImageExtensions: seq<string> := [".jpg", ".jpeg", ".png", ".gif", ".bmp"]

  /** `any(name.endswith(ext) for ext in exts)`. */
  function EndsWithAny(name: string, exts: seq<string>): (r: bool)
    ensures r <==> exists i :: 0 <= i < |exts| && EndsWith(name, exts[i])
  {
    if exts == [] then false
    else if EndsWith(name, exts[0]) then true
    else
      assert forall i :: 1 <= i < |exts| ==> exts[1..][i - 1] == exts[i];
      EndsWithAny(name, exts[1..])
  }

  /** `determine_file_type`: by the ending of the lower-cased file name. */
  function DetermineFileType(filename: string): (t: FileType)
    ensures t == Pdf <==> EndsWith(Lower(filename), PdfExtension)
    ensures t == Image <==>
      !EndsWith(Lower(filename), PdfExtension)
      && exists i :: 0 <= i < |ImageExtensions| && EndsWith(Lower(filename), ImageExtensions[i])
  {
    var name := Lower(filename);
    if EndsWith(name, PdfExtension) then Pdf
    else if EndsWithAny(name, ImageExtensions) then Image
    else Unknown
  }

  /** The type depends on the file name only up to case. */
  lemma FileTypeIgnoresCase(a: string, b: string)
    requires Lower(a) == Lower(b)
    ensures DetermineFileType(a) == DetermineFileType(b)
  {
  }

  /** Lower-casing the name first changes nothing. */
  lemma FileTypeOfLowered(filename: string)
    ensures DetermineFileType(Lower(filename)) == DetermineFileType(filename)
  {
    LowerIdempotent(filename);
  }

  /** Whether some character of `s[lo..hi]` is not a dot. */
  function HasNonDot(s: string, lo: int, hi: int): (r: bool)
    requires 0 <= lo <= hi <= |s|
    decreases hi - lo
    ensures r <==> exists k :: lo <= k < hi && s[k] != '.'
  {
    if lo == hi then false else s[lo] != '.' || HasNonDot(s, lo + 1, hi)
  }

  /**
   * `os.path.splitext(name)[1]`: from the last dot on, when that dot is in
   * the last path component and something other than dots precedes it
   * there; otherwise empty.
   */
  function Extension(name: string): (ext: string)
    ensures EndsWith(name, ext)
    ensures ext != "" ==> ext[0] == '.' && forall k :: 1 <= k < |ext| ==> ext[k] != '.' && ext[k] != '/'
  {
    var dot := RFind(name, '.');
    var slash := RFind(name, '/');
    if dot > slash && HasNonDot(name, slash + 1, dot) then
      assert forall k :: 1 <= k < |name[dot..]| ==> name[dot..][k] == name[dot + k];
      name[dot..]
    else ""
  }

  /** `temp` followed by the extension of the file name as uploaded, not lower-cased. */
  function TempPath(filename: string): string {
    "temp" + Extension(filename)
  }

  /** The temporary name keeps the original's extension, in its original case. */
  lemma TempPathSuffix(filename: string)
    ensures var ext := Extension(filename);
      && TempPath(filename) == "temp" + filename[|filename| - |ext|..]
      && EndsWith(TempPath(filename), ext)
  {
    var ext := Extension(filename);
    var p := TempPath(filename);
    assert p[|p| - |ext|..] == ext;
  }

  /** A name without a dot has no extension; one whose last component is `stem.ext` has `.ext`. */
  lemma ExtensionOfStemAndSuffix(stem: string, suffix: string)
    requires stem != [] && stem[|stem| - 1] != '.' && stem[|stem| - 1] != '/'
    requires forall k :: 0 <= k < |suffix| ==> suffix[k] != '.' && suffix[k] != '/'
    ensures Extension(stem + "." + suffix) == "." + suffix
  {
    var name := stem + "." + suffix;
    var dot := |stem|;
    assert name[dot] == '.';
    assert forall k :: dot < k < |name| ==> name[k] == suffix[k - dot - 1];
    assert RFind(name, '.') == dot;
    var slash := RFind(name, '/');
    assert slash < dot - 1 by {
      assert name[dot - 1] == stem[dot - 1];
    }
    assert name[dot - 1] != '.' && slash + 1 <= dot - 1;
    assert HasNonDot(name, slash + 1, dot);
    assert name[dot..] == "." + suffix;
  }

  /** A name with no dot at all has no extension. */
  lemma ExtensionWithoutDot(name: string)
    requires forall k :: 0 <= k < |name| ==> name[k] != '.'
    ensures Extension(name) == ""
  {
  }

  /** One block of the text-detection response. */
  datatype Block = Block(blockType: string, text: string)

  const LineType := "LINE"

  /** The texts of the LINE blocks, in block order. */
  function LineTexts(blocks: seq<Block>): seq<string> {
    if blocks == [] then []
    else
      var init := LineTexts(blocks[..|blocks| - 1]);
      var last := blocks[|blocks| - 1];
      if last.blockType == LineType then init + [last.text] else init
  }

  /** Line keeping works block by block: over a concatenation it concatenates. */
  lemma {:induction false} LineTextsAppend(a: seq<Block>, b: seq<Block>)
    decreases |b|
    ensures LineTexts(a + b) == LineTexts(a) + LineTexts(b)
  {
    if b != [] {
      var b' := b[..|b| - 1];
      assert (a + b)[..|a + b| - 1] == a + b';
      LineTextsAppend(a, b');
    } else {
      assert a + b == a;
    }
  }

  /** A single block contributes its text exactly when it is a LINE block. */
  lemma LineTextsSingle(b: Block)
    ensures LineTexts([b]) == if b.blockType == LineType then [b.text] else []
  {
    assert [b][..0] == [];
  }

  /** Every kept text comes from a LINE block, and there are never more texts than blocks. */
  lemma {:induction false} LineTextsFromLines(blocks: seq<Block>)
    ensures |LineTexts(blocks)| <= |blocks|
    ensures forall t :: t in LineTexts(blocks) ==> exists i :: 0 <= i < |blocks| && blocks[i].blockType == LineType && blocks[i].text == t
  {
    if blocks != [] {
      var init := blocks[..|blocks| - 1];
      LineTextsFromLines(init);
      assert forall i :: 0 <= i < |init| ==> init[i] == blocks[i];
    }
  }

  /** The loop of `extract_text_from_image`: LINE texts collected in order, then joined by newlines. */
  method ExtractTextFromImage(blocks: seq<Block>) returns (text: string)
    ensures text == Join(LineTexts(blocks), "\n")
  {
    var lines: seq<string> := [];
    for i := 0 to |blocks|
      invariant lines == LineTexts(blocks[..i])
    {
      assert blocks[..i + 1][..i] == blocks[..i];
      if blocks[i].blockType == LineType {
        lines := lines + [blocks[i].text];
      }
    }
    assert blocks[..|blocks|] == blocks;
    text := Join(lines, "\n");
  }

  /** What `extract_text_from_image` gives: the joined LINE texts. */
  function ImageText(blocks: seq<Block>): string {
    Join(LineTexts(blocks), "\n")
  }

  /**
   * `extract_text_from_file`: an unknown type raises; a PDF and an image
   * both go to the image text extractor, run on the temporary copy (`ocr`
   * gives the detected blocks of the file stored under a path).
   */
  function ExtractTextFromFile(filename: string, ocr: string -> seq<Block>): (r: Result<string, string>)
  {
    match DetermineFileType(filename)
    case Unknown => Failure("Unsupported file type: " + filename)
    case _ => Success(ImageText(ocr(TempPath(filename))))
  }

  /**
   * Extraction fails exactly for unknown types, with the name as uploaded in
   * the message; PDFs and images take the same path, so two names with the
   * same temporary path give the same text.
   */
  lemma ExtractTextFromFileSpec(filename: string, ocr: string -> seq<Block>)
    ensures ExtractTextFromFile(filename, ocr).Failure? <==> DetermineFileType(filename) == Unknown
    ensures ExtractTextFromFile(filename, ocr).Failure? ==>
      ExtractTextFromFile(filename, ocr).error == "Unsupported file type: " + filename
    ensures ExtractTextFromFile(filename, ocr).Success? ==>
      ExtractTextFromFile(filename, ocr).value == ImageText(ocr("temp" + Extension(filename)))
  {
  }

  /** A PDF and an image stored under the same temporary path are read the same way. */
  lemma PdfAndImageShareExtractor(pdf: string, image: string, ocr: string -> seq<Block>)
    requires DetermineFileType(pdf) == Pdf && DetermineFileType(image) == Image
    requires TempPath(pdf) == TempPath(image)
    ensures ExtractTextFromFile(pdf, ocr) == ExtractTextFromFile(image, ocr)
  {
  }
}
