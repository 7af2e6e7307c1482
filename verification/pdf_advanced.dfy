/** The advanced PDF endpoints (`app/routers/pdf/advanced_tools.py`, and the
    handlers of the older `app/routers/advanced_tools.py`, which does not import
    `aiofiles` and whose router has neither the `/api/pdf` prefix nor the
    tags): redaction with a list-of-strings check, OCR with optional
    translation, metadata scrubbing and form filling. Each output gets its own
    fresh directory from `get_temp_file_path(output_filename)`. */
module PdfAdvancedTools {
  import opened Wrappers
  import opened Errors
  import opened PyPath
  import opened FileSystem
  import opened TempStorage
  import opened JsonValue
  import opened PdfHandler
  import opened Ocr
  import opened Jobs

  // ---------------------------------------------------------------- option validation

  /** `json.loads(terms_to_redact_json)` inside a `try` that only catches
      `JSONDecodeError`, so the 400 for a wrong shape passes through. */
  function StringTerms(parse: JsonParser, text: string): (r: Result<seq<Json>, Exc>)
    ensures r.Ok? <==> parse(text).Some? && IsStringList(parse(text).value)
    ensures r.Ok? ==> r.value == parse(text).value.items
                      && forall i :: 0 <= i < |r.value| ==> r.value[i].JStr?
    ensures r.Err? ==> r.error.HttpException? && r.error.status == 400
  {
    match parse(text)
    case None => Err(HttpException(400, "Invalid JSON format for `terms_to_redact_json`."))
    case Some(v) =>
      if IsStringList(v) then Ok(v.items)
      else Err(HttpException(400, "`terms_to_redact_json` must be a JSON array of strings."))
  }

  /** `json.loads(form_data_json)` and the `isinstance(..., dict)` check. */
  function FormFields(parse: JsonParser, text: string): (r: Result<map<string, Json>, Exc>)
    ensures r.Ok? <==> parse(text).Some? && IsObject(parse(text).value)
    ensures r.Ok? ==> r.value == parse(text).value.fields
    ensures r.Err? ==> r.error.HttpException? && r.error.status == 400
  {
    match parse(text)
    case None => Err(HttpException(400, "Invalid JSON format for `form_data_json`."))
    case Some(v) =>
      if v.JObj? then Ok(v.fields) else Err(HttpException(400, "`form_data_json` must be a JSON object."))
  }

  // ---------------------------------------------------------------- endpoints

  /** `POST /api/pdf/redact` of the advanced router. */
  function RedactPdfFile(ctx: Ctx, st: St, lib: PdfLib, parse: JsonParser, up: Upload, termsJson: string,
                         outputFilename: string): Response
  {
    if !IsPdfName(up.filename) then Reject(400, NotAPdf(up.filename), st)
    else
      match StringTerms(parse, termsJson)
      case Err(e) => Failure(e, "", st)
      case Ok(terms) =>
        SingleFileJob(ctx, st, up, FreshDir, outputFilename,
                      (s: St, i: Path, o: RawPath) => Lift(s, RedactPdf(lib, s.fs, i, o, terms)),
                      "Failed to redact PDF: ", "application/pdf")
  }

  /** `POST /api/pdf/scrub_metadata`. */
  function ScrubMetadataFromPdf(ctx: Ctx, st: St, lib: PdfLib, up: Upload, outputFilename: string): Response
  {
    if !IsPdfName(up.filename) then Reject(400, NotAPdf(up.filename), st)
    else
      SingleFileJob(ctx, st, up, FreshDir, outputFilename,
                    (s: St, i: Path, o: RawPath) => Lift(s, ScrubPdfMetadata(lib, s.fs, i, o)),
                    "Failed to scrub metadata: ", "application/pdf")
  }

  /** `POST /api/pdf/fill_form`; `flatten_form` defaults to true. */
  function FillPdfForm(ctx: Ctx, st: St, lib: PdfLib, parse: JsonParser, up: Upload, formJson: string,
                       flatten: bool, outputFilename: string): Response
  {
    if !IsPdfName(up.filename) then Reject(400, NotAPdf(up.filename), st)
    else
      match FormFields(parse, formJson)
      case Err(e) => Failure(e, "", st)
      case Ok(form) =>
        SingleFileJob(ctx, st, up, FreshDir, outputFilename,
                      (s: St, i: Path, o: RawPath) => Lift(s, FillAndFlattenPdfForm(lib, s.fs, i, o, form, flatten)),
                      "Failed to fill PDF form: ", "application/pdf")
  }

  /** The OCR text, replaced by its translation when a target language is
      given and non-empty (`if translate_to_language:`); the OCR language is
      passed as the source language. */
  function FinalText(tr: Translator, extracted: string, ocrLanguage: string, translateTo: Option<string>): string
  {
    if translateTo.Some? && translateTo.value != "" then TranslateText(tr, extracted, translateTo.value, Some(ocrLanguage))
    else extracted
  }

  function OcrPrefix(): string
  {
    "Failed to perform OCR or translation: "
  }

  /** What the older router raises on reaching `aiofiles.open`. */
  function NoAiofiles(): Exc
  {
    Exc(NameError, "name 'aiofiles' is not defined")
  }

  /** How the text file is written: `aiofiles.open(output_path, 'w',
      encoding='utf-8')` in the mounted router; in the older router the name
      `aiofiles` was never imported, so the `with` raises `NameError`. */
  datatype TextWriter = AioFiles | AioFilesNotImported

  /** `encode` is the UTF-8 encoding of the text. */
  function WriteText(w: TextWriter, encode: string -> Bytes, fs: FS, out: RawPath, text: string): (s: Step<RawPath>)
    ensures s.r.Ok? ==> s.r.value == out && w == AioFiles
    ensures w == AioFilesNotImported ==> s == Step(fs, Err(NoAiofiles()))
  {
    match w
    case AioFilesNotImported => Step(fs, Err(NoAiofiles()))
    case AioFiles =>
      match WriteFile(fs, out, encode(text))
      case Err(e) => Step(fs, Err(e))
      case Ok(fs') => Step(fs', Ok(out))
  }

  /** The `try` block of `ocr_and_translate_pdf`: recognise, maybe translate,
      write the text to the output path and answer with that path. */
  function OcrBody(ocr: OcrLib, tr: Translator, w: TextWriter, encode: string -> Bytes,
                   ocrLanguage: string, translateTo: Option<string>, fs: FS, input: Path, out: RawPath): Step<RawPath>
  {
    match PerformOcrOnPdf(ocr, fs, input, ocrLanguage)
    case Err(e) => Step(fs, Err(e))
    case Ok(text) => WriteText(w, encode, fs, out, FinalText(tr, text, ocrLanguage, translateTo))
  }

  /** `POST /api/pdf/ocr_translate`; `ocr_language` defaults to `eng`. */
  function OcrAndTranslatePdf(ctx: Ctx, st: St, ocr: OcrLib, tr: Translator, w: TextWriter, encode: string -> Bytes,
                              up: Upload, ocrLanguage: string, translateTo: Option<string>, outputFilename: string): Response
  {
    if !IsPdfName(up.filename) then Reject(400, NotAPdf(up.filename), st)
    else
      SingleFileJob(ctx, st, up, FreshDir, outputFilename,
                    (s: St, i: Path, o: RawPath) => Lift(s, OcrBody(ocr, tr, w, encode, ocrLanguage, translateTo, s.fs, i, o)),
                    OcrPrefix(), "text/plain")
  }

  // ---------------------------------------------------------------- validation properties

  /** Redaction accepts exactly the requests whose name ends in `.pdf` and
      whose terms decode to a list of strings; every other request gets 400
      with the matching detail and changes nothing, and no accepted request
      is answered with 400. */
  lemma RedactValidation(ctx: Ctx, st: St, lib: PdfLib, parse: JsonParser, up: Upload, termsJson: string,
                         outputFilename: string)
    ensures var r := RedactPdfFile(ctx, st, lib, parse, up, termsJson, outputFilename);
            var valid := IsPdfName(up.filename) && parse(termsJson).Some? && IsStringList(parse(termsJson).value);
            && (!valid ==> r.status == 400 && r.st == st && r.tasks == [])
            && (valid ==> r.status != 400)
            && (!IsPdfName(up.filename) ==> r.body == Detail(NotAPdf(up.filename)))
            && (IsPdfName(up.filename) && parse(termsJson).None? ==>
                  r.body == Detail("Invalid JSON format for `terms_to_redact_json`."))
            && (IsPdfName(up.filename) && parse(termsJson).Some? && !IsStringList(parse(termsJson).value) ==>
                  r.body == Detail("`terms_to_redact_json` must be a JSON array of strings."))
  {
    if IsPdfName(up.filename) && parse(termsJson).Some? && IsStringList(parse(termsJson).value) {
      var terms := parse(termsJson).value.items;
      var body := (s: St, i: Path, o: RawPath) => Lift(s, RedactPdf(lib, s.fs, i, o, terms));
      var s := SaveTempFile(ctx, st, up);
      if s.r.Ok? && AllocateOutput(ctx, s.st, FreshDir, outputFilename).r.Ok? {
        SingleFileJobSpec(ctx, st, up, FreshDir, outputFilename, body, "Failed to redact PDF: ", "application/pdf");
      }
    }
  }

  /** Form filling accepts exactly the requests whose name ends in `.pdf` and
      whose form decodes to an object; every other request gets 400 with the
      matching detail and changes nothing, and no accepted request is
      answered with 400. */
  lemma FillValidation(ctx: Ctx, st: St, lib: PdfLib, parse: JsonParser, up: Upload, formJson: string,
                       flatten: bool, outputFilename: string)
    ensures var r := FillPdfForm(ctx, st, lib, parse, up, formJson, flatten, outputFilename);
            var valid := IsPdfName(up.filename) && parse(formJson).Some? && IsObject(parse(formJson).value);
            && (!valid ==> r.status == 400 && r.st == st && r.tasks == [])
            && (valid ==> r.status != 400)
            && (!IsPdfName(up.filename) ==> r.body == Detail(NotAPdf(up.filename)))
            && (IsPdfName(up.filename) && parse(formJson).None? ==>
                  r.body == Detail("Invalid JSON format for `form_data_json`."))
            && (IsPdfName(up.filename) && parse(formJson).Some? && !IsObject(parse(formJson).value) ==>
                  r.body == Detail("`form_data_json` must be a JSON object."))
  {
    if IsPdfName(up.filename) && parse(formJson).Some? && IsObject(parse(formJson).value) {
      var form := parse(formJson).value.fields;
      var body := (s: St, i: Path, o: RawPath) => Lift(s, FillAndFlattenPdfForm(lib, s.fs, i, o, form, flatten));
      var s := SaveTempFile(ctx, st, up);
      if s.r.Ok? && AllocateOutput(ctx, s.st, FreshDir, outputFilename).r.Ok? {
        SingleFileJobSpec(ctx, st, up, FreshDir, outputFilename, body, "Failed to fill PDF form: ", "application/pdf");
      }
    }
  }

  /** Scrubbing and OCR check only the name: anything not ending in `.pdf`
      is 400 before staging, and a `.pdf` name is never answered with 400. */
  lemma NameCheckOnly(ctx: Ctx, st: St, lib: PdfLib, ocr: OcrLib, tr: Translator, w: TextWriter,
                      encode: string -> Bytes, up: Upload, ocrLanguage: string, translateTo: Option<string>,
                      outputFilename: string)
    ensures var r := ScrubMetadataFromPdf(ctx, st, lib, up, outputFilename);
            && (!IsPdfName(up.filename) <==> r.status == 400)
            && (!IsPdfName(up.filename) ==> r.st == st && r.body == Detail(NotAPdf(up.filename)))
    ensures var r := OcrAndTranslatePdf(ctx, st, ocr, tr, w, encode, up, ocrLanguage, translateTo, outputFilename);
            && (!IsPdfName(up.filename) <==> r.status == 400)
            && (!IsPdfName(up.filename) ==> r.st == st && r.body == Detail(NotAPdf(up.filename)))
  {
    if IsPdfName(up.filename) {
      var s := SaveTempFile(ctx, st, up);
      if s.r.Ok? && AllocateOutput(ctx, s.st, FreshDir, outputFilename).r.Ok? {
        var scrub := (s: St, i: Path, o: RawPath) => Lift(s, ScrubPdfMetadata(lib, s.fs, i, o));
        SingleFileJobSpec(ctx, st, up, FreshDir, outputFilename, scrub, "Failed to scrub metadata: ", "application/pdf");
        var body := (s: St, i: Path, o: RawPath) => Lift(s, OcrBody(ocr, tr, w, encode, ocrLanguage, translateTo, s.fs, i, o));
        var o := AllocateOutput(ctx, s.st, FreshDir, outputFilename);
        OcrBodyRaises(ocr, tr, w, encode, ocrLanguage, translateTo, o.st.fs, s.r.value, o.r.value);
        SingleFileJobSpec(ctx, st, up, FreshDir, outputFilename, body, OcrPrefix(), "text/plain");
      }
    }
  }

  /** The OCR body raises only ordinary Python exceptions, never an
      `HTTPException`. */
  lemma OcrBodyRaises(ocr: OcrLib, tr: Translator, w: TextWriter, encode: string -> Bytes,
                      ocrLanguage: string, translateTo: Option<string>, fs: FS, input: Path, out: RawPath)
    ensures var b := OcrBody(ocr, tr, w, encode, ocrLanguage, translateTo, fs, input, out);
            b.r.Err? ==> b.r.error.Exc?
  {
  }

  // ---------------------------------------------------------------- outputs and cleanup

  /** On fresh uuids the output of every advanced endpoint is the client's
      name joined to a new directory directly under the root, made after the
      two directories staging used; the output itself is not created. */
  lemma OutputInFreshDir(ctx: Ctx, st: St, up: Upload, outputFilename: string)
    requires Ready(ctx, st) && Fresh(ctx, st, 4) && outputFilename != ""
    ensures var s := SaveTempFile(ctx, st, up);
            var o := AllocateOutput(ctx, s.st, FreshDir, outputFilename);
            var d := ctx.root + [ctx.uuid(st.used + 2)];
            && s.r.Ok? && o.r.Ok?
            && o.r.value == Join(d, outputFilename)
            && d !in st.fs && d !in s.st.fs && d in o.st.fs
            && o.st.fs == s.st.fs[d := Dir]
  {
    SaveTempFileSpec(ctx, st, up);
    FreshAfterSave(ctx, st, up, 2);
    var s := SaveTempFile(ctx, st, up);
    GetTempFilePathSpec(ctx, s.st, outputFilename, false);
    var d := ctx.root + [ctx.uuid(st.used + 2)];
    assert d !in st.fs by {
      assert Sub(st.fs, s.st.fs);
    }
  }

  /** Once staged and given an output path, a redaction ends with the input
      removed; the status is 200 exactly when `redact_pdf` succeeded, with the
      output served as `output_filename` and both paths queued, and the
      reason behind 500 otherwise. */
  lemma RedactRun(ctx: Ctx, st: St, lib: PdfLib, parse: JsonParser, up: Upload, termsJson: string,
                  outputFilename: string)
    requires IsPdfName(up.filename) && StringTerms(parse, termsJson).Ok?
    requires SaveTempFile(ctx, st, up).r.Ok?
    requires AllocateOutput(ctx, SaveTempFile(ctx, st, up).st, FreshDir, outputFilename).r.Ok?
    ensures var r := RedactPdfFile(ctx, st, lib, parse, up, termsJson, outputFilename);
            var s := SaveTempFile(ctx, st, up);
            var o := AllocateOutput(ctx, s.st, FreshDir, outputFilename);
            var red := RedactPdf(lib, o.st.fs, s.r.value, o.r.value, parse(termsJson).value.items);
            && !Exists(r.st.fs, s.r.value)
            && (r.status == 200 <==> red.r.Ok?)
            && (red.r.Ok? ==> r.body == FileBody(o.r.value, outputFilename, "application/pdf")
                              && r.tasks == [CleanFile(s.r.value), CleanFile(o.r.value)])
            && (red.r.Err? ==> r.status == 500 && r.body == Detail("Failed to redact PDF: " + red.r.error.msg))
  {
    var terms := parse(termsJson).value.items;
    var body := (s: St, i: Path, o: RawPath) => Lift(s, RedactPdf(lib, s.fs, i, o, terms));
    SingleFileJobSpec(ctx, st, up, FreshDir, outputFilename, body, "Failed to redact PDF: ", "application/pdf");
  }

  /** Once staged and given an output path, a metadata scrub ends with the
      input removed; the status is 200 exactly when `scrub_pdf_metadata`
      succeeded. */
  lemma ScrubRun(ctx: Ctx, st: St, lib: PdfLib, up: Upload, outputFilename: string)
    requires IsPdfName(up.filename) && SaveTempFile(ctx, st, up).r.Ok?
    requires AllocateOutput(ctx, SaveTempFile(ctx, st, up).st, FreshDir, outputFilename).r.Ok?
    ensures var r := ScrubMetadataFromPdf(ctx, st, lib, up, outputFilename);
            var s := SaveTempFile(ctx, st, up);
            var o := AllocateOutput(ctx, s.st, FreshDir, outputFilename);
            var sc := ScrubPdfMetadata(lib, o.st.fs, s.r.value, o.r.value);
            && !Exists(r.st.fs, s.r.value)
            && (r.status == 200 <==> sc.r.Ok?)
            && (sc.r.Ok? ==> r.body == FileBody(o.r.value, outputFilename, "application/pdf")
                             && r.tasks == [CleanFile(s.r.value), CleanFile(o.r.value)])
            && (sc.r.Err? ==> r.status == 500 && r.body == Detail("Failed to scrub metadata: " + sc.r.error.msg))
  {
    var body := (s: St, i: Path, o: RawPath) => Lift(s, ScrubPdfMetadata(lib, s.fs, i, o));
    SingleFileJobSpec(ctx, st, up, FreshDir, outputFilename, body, "Failed to scrub metadata: ", "application/pdf");
  }

  /** Once staged and given an output path, a form fill ends with the input
      removed; the status is 200 exactly when `fill_and_flatten_pdf_form`
      succeeded. */
  lemma FillRun(ctx: Ctx, st: St, lib: PdfLib, parse: JsonParser, up: Upload, formJson: string,
                flatten: bool, outputFilename: string)
    requires IsPdfName(up.filename) && FormFields(parse, formJson).Ok?
    requires SaveTempFile(ctx, st, up).r.Ok?
    requires AllocateOutput(ctx, SaveTempFile(ctx, st, up).st, FreshDir, outputFilename).r.Ok?
    ensures var r := FillPdfForm(ctx, st, lib, parse, up, formJson, flatten, outputFilename);
            var s := SaveTempFile(ctx, st, up);
            var o := AllocateOutput(ctx, s.st, FreshDir, outputFilename);
            var f := FillAndFlattenPdfForm(lib, o.st.fs, s.r.value, o.r.value, parse(formJson).value.fields, flatten);
            && !Exists(r.st.fs, s.r.value)
            && (r.status == 200 <==> f.r.Ok?)
            && (f.r.Ok? ==> r.body == FileBody(o.r.value, outputFilename, "application/pdf")
                            && r.tasks == [CleanFile(s.r.value), CleanFile(o.r.value)])
            && (f.r.Err? ==> r.status == 500 && r.body == Detail("Failed to fill PDF form: " + f.r.error.msg))
  {
    var form := parse(formJson).value.fields;
    var body := (s: St, i: Path, o: RawPath) => Lift(s, FillAndFlattenPdfForm(lib, s.fs, i, o, form, flatten));
    SingleFileJobSpec(ctx, st, up, FreshDir, outputFilename, body, "Failed to fill PDF form: ", "application/pdf");
  }

  // ---------------------------------------------------------------- OCR and translation

  /** Without a non-empty target language the translator is never consulted:
      any two translators give the same response. */
  lemma NoTargetNoTranslation(ctx: Ctx, st: St, ocr: OcrLib, tr1: Translator, tr2: Translator, w: TextWriter,
                              encode: string -> Bytes, up: Upload, ocrLanguage: string, translateTo: Option<string>,
                              outputFilename: string)
    requires translateTo.None? || translateTo.value == ""
    ensures OcrAndTranslatePdf(ctx, st, ocr, tr1, w, encode, up, ocrLanguage, translateTo, outputFilename)
            == OcrAndTranslatePdf(ctx, st, ocr, tr2, w, encode, up, ocrLanguage, translateTo, outputFilename)
  {
    var s := SaveTempFile(ctx, st, up);
    if IsPdfName(up.filename) && s.r.Ok? {
      var o := AllocateOutput(ctx, s.st, FreshDir, outputFilename);
      if o.r.Ok? {
        OcrBodyNoTarget(ocr, tr1, tr2, w, encode, ocrLanguage, translateTo, o.st.fs, s.r.value, o.r.value);
      }
    }
  }

  /** The OCR step itself ignores the translator when there is no target. */
  lemma OcrBodyNoTarget(ocr: OcrLib, tr1: Translator, tr2: Translator, w: TextWriter, encode: string -> Bytes,
                        ocrLanguage: string, translateTo: Option<string>, fs: FS, input: Path, out: RawPath)
    requires translateTo.None? || translateTo.value == ""
    ensures OcrBody(ocr, tr1, w, encode, ocrLanguage, translateTo, fs, input, out)
            == OcrBody(ocr, tr2, w, encode, ocrLanguage, translateTo, fs, input, out)
  {
  }

  /** With the text file written as in the mounted router, a staged OCR
      request answers 200 exactly when recognition and the write succeed; the
      file then holds the encoded OCR text, or its translation when a target
      language was given, and the input is removed either way. */
  lemma OcrRun(ctx: Ctx, st: St, ocr: OcrLib, tr: Translator, encode: string -> Bytes,
               up: Upload, ocrLanguage: string, translateTo: Option<string>, outputFilename: string)
    requires IsPdfName(up.filename) && SaveTempFile(ctx, st, up).r.Ok?
    requires AllocateOutput(ctx, SaveTempFile(ctx, st, up).st, FreshDir, outputFilename).r.Ok?
    ensures var r := OcrAndTranslatePdf(ctx, st, ocr, tr, AioFiles, encode, up, ocrLanguage, translateTo, outputFilename);
            var s := SaveTempFile(ctx, st, up);
            var o := AllocateOutput(ctx, s.st, FreshDir, outputFilename);
            var text := PerformOcrOnPdf(ocr, o.st.fs, s.r.value, ocrLanguage);
            && !Exists(r.st.fs, s.r.value)
            && (text.Err? ==> r.status == 500
                              && r.body == Detail(OcrPrefix() + text.error.msg))
            && (text.Ok? ==>
                  var data := encode(FinalText(tr, text.value, ocrLanguage, translateTo));
                  && (r.status == 200 <==> WriteFile(o.st.fs, o.r.value, data).Ok?)
                  && (r.status == 200 ==>
                        && r.body == FileBody(o.r.value, outputFilename, "text/plain")
                        && r.tasks == [CleanFile(s.r.value), CleanFile(o.r.value)]
                        && WriteFile(o.st.fs, o.r.value, data).value[Locate(o.st.fs, o.r.value).value] == File(data)))
  {
    var s := SaveTempFile(ctx, st, up);
    var o := AllocateOutput(ctx, s.st, FreshDir, outputFilename);
    var body := (s: St, i: Path, o: RawPath) => Lift(s, OcrBody(ocr, tr, AioFiles, encode, ocrLanguage, translateTo, s.fs, i, o));
    OcrBodyRaises(ocr, tr, AioFiles, encode, ocrLanguage, translateTo, o.st.fs, s.r.value, o.r.value);
    SingleFileJobSpec(ctx, st, up, FreshDir, outputFilename, body, OcrPrefix(), "text/plain");
  }

  /** The older router never returns the text: once staged, a request whose
      OCR succeeds reaches the unimported `aiofiles` and is answered 500 with
      the `NameError`, after the input is removed. */
  lemma LegacyOcrNeverAnswers(ctx: Ctx, st: St, ocr: OcrLib, tr: Translator, encode: string -> Bytes,
                              up: Upload, ocrLanguage: string, translateTo: Option<string>, outputFilename: string)
    requires IsPdfName(up.filename) && SaveTempFile(ctx, st, up).r.Ok?
    requires AllocateOutput(ctx, SaveTempFile(ctx, st, up).st, FreshDir, outputFilename).r.Ok?
    ensures var r := OcrAndTranslatePdf(ctx, st, ocr, tr, AioFilesNotImported, encode, up, ocrLanguage, translateTo, outputFilename);
            var s := SaveTempFile(ctx, st, up);
            var o := AllocateOutput(ctx, s.st, FreshDir, outputFilename);
            && r.status == 500 && r.tasks == []
            && !Exists(r.st.fs, s.r.value)
            && (PerformOcrOnPdf(ocr, o.st.fs, s.r.value, ocrLanguage).Ok? ==>
                  r.body == Detail(OcrPrefix() + NoAiofiles().msg))
  {
    var s := SaveTempFile(ctx, st, up);
    var o := AllocateOutput(ctx, s.st, FreshDir, outputFilename);
    var body := (s: St, i: Path, o: RawPath) => Lift(s, OcrBody(ocr, tr, AioFilesNotImported, encode, ocrLanguage, translateTo, s.fs, i, o));
    LegacyOcrBodyFails(ocr, tr, encode, ocrLanguage, translateTo, o.st.fs, s.r.value, o.r.value);
    SingleFileJobSpec(ctx, st, up, FreshDir, outputFilename, body, OcrPrefix(), "text/plain");
  }

  /** Without `aiofiles` the OCR body always raises an ordinary exception:
      the OCR failure, or the `NameError` once the text is ready. */
  lemma LegacyOcrBodyFails(ocr: OcrLib, tr: Translator, encode: string -> Bytes,
                           ocrLanguage: string, translateTo: Option<string>, fs: FS, input: Path, out: RawPath)
    ensures var b := OcrBody(ocr, tr, AioFilesNotImported, encode, ocrLanguage, translateTo, fs, input, out);
            && b.r.Err? && b.r.error.Exc?
            && (PerformOcrOnPdf(ocr, fs, input, ocrLanguage).Ok? ==> b.r.error == NoAiofiles())
  {
  }
}
