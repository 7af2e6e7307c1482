/** `app/services/ocr.py`: text recognition over a rasterised PDF and the
    translation fallback. Poppler, Tesseract and the translation service are
    oracles. */
module Ocr {
  import opened Wrappers
  import opened Errors
  import opened PyStr
  import opened PyPath
  import opened FileSystem

  datatype Image = Image(data: Bytes)

  /** `convert_from_path` (the file's bytes to one image per page) and
      `pytesseract.image_to_string` (an image and a language to text). */
  datatype OcrLib = OcrLib(
    rasterize: Bytes -> Result<seq<Image>, Exc>,
    recognize: (Image, string) -> Result<string, Exc>)

  /** The marker put before the text of page `i` (counted from 0). */
  function PageHeader(i: nat): string
  {
    "\n--- Page " + NatToString(i + 1) + " ---\n"
  }

  /** The list `perform_ocr_on_pdf` accumulates: a header, then the text, per page. */
  function Pieces(texts: seq<string>): (ps: seq<string>)
    ensures |ps| == 2 * |texts|
    ensures forall i :: 0 <= i < |texts| ==> ps[2 * i] == PageHeader(i) && ps[2 * i + 1] == texts[i]
  {
    if |texts| == 0 then []
    else Pieces(texts[..|texts| - 1]) + [PageHeader(|texts| - 1), texts[|texts| - 1]]
  }

  /** The recognised document: the pieces joined by newlines. */
  function OcrText(texts: seq<string>): string
  {
    JoinWith(Pieces(texts), "\n")
  }

  /** The same text written page after page: the first page opens with its
      header, each later page adds a newline, its header, a newline and its text. */
  function PageByPage(texts: seq<string>): string
  {
    if |texts| == 0 then ""
    else if |texts| == 1 then PageHeader(0) + "\n" + texts[0]
    else PageByPage(texts[..|texts| - 1]) + "\n" + PageHeader(|texts| - 1) + "\n" + texts[|texts| - 1]
  }

  /** The joined list is the page-by-page text; no pages give the empty text. */
  lemma {:induction false} OcrTextPageByPage(texts: seq<string>)
    ensures OcrText(texts) == PageByPage(texts)
  {
    var n := |texts|;
    if n == 1 {
      assert texts[..0] == [];
      assert Pieces(texts) == [] + [PageHeader(0), texts[0]] == [PageHeader(0), texts[0]];
      assert JoinWith([PageHeader(0), texts[0]], "\n") == PageHeader(0) + "\n" + JoinWith([texts[0]], "\n");
    } else if n > 1 {
      var init := texts[..n - 1];
      OcrTextPageByPage(init);
      var ps := Pieces(init);
      JoinAppend(ps, PageHeader(n - 1), "\n");
      JoinAppend(ps + [PageHeader(n - 1)], texts[n - 1], "\n");
      assert ps + [PageHeader(n - 1), texts[n - 1]] == ps + [PageHeader(n - 1)] + [texts[n - 1]];
    }
  }

  /** Recognises every page image in order; the first failure stops the loop. */
  function RecognizeAll(lib: OcrLib, images: seq<Image>, lang: string): (r: Result<seq<string>, Exc>)
    ensures r.Ok? ==> |r.value| == |images|
    ensures r.Ok? ==> forall i :: 0 <= i < |images| ==> lib.recognize(images[i], lang) == Ok(r.value[i])
    ensures r.Ok? <==> forall i :: 0 <= i < |images| ==> lib.recognize(images[i], lang).Ok?
  {
    if |images| == 0 then Ok([])
    else
      match lib.recognize(images[0], lang)
      case Err(e) => Err(e)
      case Ok(t) =>
        match RecognizeAll(lib, images[1..], lang)
        case Err(e) => Err(e)
        case Ok(rest) =>
          assert forall i :: 1 <= i < |images| ==> images[i] == images[1..][i - 1];
          Ok([t] + rest)
  }

  function OcrFailed(p: RawPath, e: Exc): Exc
  {
    Exc(Exception, "Failed to perform OCR on " + Render(p) + ": " + Text(e)
                   + ". Ensure Tesseract and Poppler are installed and in PATH.")
  }

  /** `perform_ocr_on_pdf(path, lang)`: a missing file is a `FileNotFoundError`
      raised before the work starts; every later failure is wrapped into one
      generic exception naming the file. */
  function PerformOcrOnPdf(lib: OcrLib, fs: FS, p: RawPath, lang: string): (r: Result<string, Exc>)
    ensures !Exists(fs, p) ==> r == Err(Exc(FileNotFoundError, "PDF file not found for OCR: " + Render(p)))
    ensures r.Err? && Exists(fs, p) ==> r.error.Exc? && r.error.kind == Exception
  {
    if !Exists(fs, p) then Err(Exc(FileNotFoundError, "PDF file not found for OCR: " + Render(p)))
    else
      match Read(fs, p)
      case Err(e) => Err(OcrFailed(p, e))
      case Ok(b) =>
        match lib.rasterize(b)
        case Err(e) => Err(OcrFailed(p, e))
        case Ok(images) =>
          match RecognizeAll(lib, images, lang)
          case Err(e) => Err(OcrFailed(p, e))
          case Ok(texts) => Ok(OcrText(texts))
  }

  /** When every page is recognised, the result is the pages' texts in order,
      each under its own numbered header. */
  lemma PerformOcrPages(lib: OcrLib, fs: FS, p: RawPath, lang: string, images: seq<Image>, texts: seq<string>)
    requires Read(fs, p).Ok? && lib.rasterize(Read(fs, p).value) == Ok(images)
    requires |texts| == |images|
    requires forall i :: 0 <= i < |images| ==> lib.recognize(images[i], lang) == Ok(texts[i])
    ensures PerformOcrOnPdf(lib, fs, p, lang) == Ok(PageByPage(texts))
    ensures |images| == 0 ==> PerformOcrOnPdf(lib, fs, p, lang) == Ok("")
  {
    assert Exists(fs, p);
    var r := RecognizeAll(lib, images, lang);
    assert r.Ok?;
    assert r.value == texts;
    OcrTextPageByPage(texts);
  }

  /** A single recognised page reads as its header, a blank line and its text. */
  lemma OnePage(t: string)
    ensures OcrText([t]) == "\n--- Page 1 ---\n\n" + t
  {
    OcrTextPageByPage([t]);
    assert NatToString(1) == "1";
  }

  /** The translation service: text, target language and optional source
      language to the translation. */
  type Translator = (string, string, Option<string>) -> Result<string, Exc>

  /** `translate_text(text, target, source)`: text with nothing but whitespace
      is answered with "" without consulting the service; a failure of the
      service is not raised but reported in the returned text. */
  function TranslateText(tr: Translator, text: string, target: string, source: Option<string>): (r: string)
    ensures (forall i :: 0 <= i < |text| ==> IsSpace(text[i])) ==> r == ""
    ensures tr(text, target, source).Err? && r != "" ==>
              r == "Translation failed: " + Text(tr(text, target, source).error) + ". Original text: " + text
  {
    StripEmptyIffAllSpace(text);
    if Strip(text) == "" then ""
    else
      match tr(text, target, source)
      case Ok(t) => t
      case Err(e) => "Translation failed: " + Text(e) + ". Original text: " + text
  }

  /** The service is consulted exactly when the text has a non-whitespace
      character: otherwise any two services give the same answer, and with one
      the answer is the service's own or the fallback that ends with the
      original text. */
  lemma TranslateConsultsServiceIffText(tr1: Translator, tr2: Translator, text: string, target: string, source: Option<string>)
    ensures (forall i :: 0 <= i < |text| ==> IsSpace(text[i])) ==>
              TranslateText(tr1, text, target, source) == TranslateText(tr2, text, target, source)
    ensures (exists i :: 0 <= i < |text| && !IsSpace(text[i])) ==>
              match tr1(text, target, source)
              case Ok(t) => TranslateText(tr1, text, target, source) == t
              case Err(e) => EndsWith(TranslateText(tr1, text, target, source), text)
  {
    StripEmptyIffAllSpace(text);
    match tr1(text, target, source)
    case Ok(t) =>
    case Err(e) =>
      var r := TranslateText(tr1, text, target, source);
      if exists i :: 0 <= i < |text| && !IsSpace(text[i]) {
        var pre := "Translation failed: " + Text(e) + ". Original text: ";
        assert r == pre + text;
        assert r[|pre|..] == text;
      }
  }
}
