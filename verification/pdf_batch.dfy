/** The batch endpoints (`app/routers/pdf/batch_tools.py`, mounted without a
    prefix): a ZIP of PDFs is staged, extracted into a fresh directory, each
    extracted `.pdf` is processed into its own fresh output directory (a
    failing document is skipped, not fatal), and the outputs are zipped into
    the file the client named. The staged archive and the extraction
    directory are removed on every exit from the `try` block.

    Every endpoint takes the containment test its extraction uses: with
    `StartsWith`, the code as written, no request is ever served (see
    `BatchAsWrittenNeverServes`); with `SegmentPrefix`, the intended test,
    the success facts below describe what the endpoint does. */
module PdfBatchTools {
  import opened Wrappers
  import opened Errors
  import opened PyStr
  import opened PyPath
  import opened FileSystem
  import opened TempStorage
  import opened JsonValue
  import opened Archive
  import opened PdfHandler
  import opened Ocr
  import opened Jobs
  import opened PdfAdvancedTools

  // ---------------------------------------------------------------- the three operations

  /** What is done to each extracted document, with the request's options. */
  datatype BatchOp =
    | BatchRedact(lib: PdfLib, terms: seq<Json>)
    | BatchOcr(ocr: OcrLib, tr: Translator, encode: string -> Bytes, ocrLanguage: string, translateTo: Option<string>)
    | BatchScrub(lib: PdfLib)

  /** The name each output gets inside its own directory. */
  function OutputName(op: BatchOp, name: string): string
  {
    match op
    case BatchRedact(_, _) => "redacted_" + name
    case BatchOcr(_, _, _, _, _) => Stem(name) + ".txt"
    case BatchScrub(_) => "scrubbed_" + name
  }

  /** The `HTTPException(500)` raised when every document failed. */
  function NoneDone(op: BatchOp): string
  {
    match op
    case BatchRedact(_, _) => "No PDFs were successfully redacted."
    case BatchOcr(_, _, _, _, _) => "No PDFs were successfully processed for OCR/translation."
    case BatchScrub(_) => "No PDFs were successfully scrubbed of metadata."
  }

  /** The detail prefix of the catch-all 500. */
  function FailPrefix(op: BatchOp): string
  {
    match op
    case BatchRedact(_, _) => "Failed to perform batch redaction: "
    case BatchOcr(_, _, _, _, _) => "Failed to perform batch OCR/Translation: "
    case BatchScrub(_) => "Failed to perform batch metadata scrubbing: "
  }

  function NoPdfsFound(): string
  {
    "No PDF files found in the uploaded ZIP archive."
  }

  /** The per-document service; OCR writes its text with `aiofiles`, which this
      router does import. */
  function Apply(op: BatchOp, fs: FS, input: Path, out: RawPath): Step<RawPath>
  {
    match op
    case BatchRedact(lib, terms) => RedactPdf(lib, fs, input, out, terms)
    case BatchOcr(ocr, tr, encode, lang, to) => OcrBody(ocr, tr, AioFiles, encode, lang, to, fs, input, out)
    case BatchScrub(lib) => ScrubPdfMetadata(lib, fs, input, out)
  }

  /** `pdf_path.suffix.lower() == '.pdf'`: pathlib's suffix, so a bare `.pdf`
      has none. */
  predicate HasPdfSuffix(p: RawPath)
  {
    Lower(Suffix(NameOf(p))) == ".pdf"
  }

  /** Every output name is a single ordinary component, whatever the member
      was called. */
  lemma OutputNameOrdinary(op: BatchOp, name: string)
    requires '/' !in name
    ensures IsOrdinary(OutputName(op, name))
  {
    match op
    case BatchRedact(_, _) =>
      assert '/' !in "redacted_";
    case BatchOcr(_, _, _, _, _) =>
      StemSuffix(name);
      assert '/' !in Stem(name) by {
        assert name == Stem(name) + Suffix(name);
      }
      assert '/' !in ".txt";
    case BatchScrub(_) =>
      assert '/' !in "scrubbed_";
  }

  // ---------------------------------------------------------------- the loop

  /** Where an output may be: a normal path two components under the root. */
  predicate InOwnDir(ctx: Ctx, p: RawPath)
  {
    IsNormal(p) && |p| == |ctx.root| + 2 && Within(p, ctx.root)
  }

  /** One iteration: a non-PDF is passed over untouched; a PDF gets a fresh
      output path (a failure there is outside the inner `try` and aborts the
      batch), then any failure of the service is swallowed. */
  function Item(ctx: Ctx, st: St, op: BatchOp, p: Path): (o: Out<Option<RawPath>>)
    ensures !HasPdfSuffix(p) ==> o == Out(st, Ok(None))
    ensures o.r.Err? ==> o.r.error.Exc?
    ensures o.r.Ok? && o.r.value.Some? ==>
              o.r.value.value == ctx.root + [ctx.uuid(st.used), OutputName(op, NameOf(p))]
              && InOwnDir(ctx, o.r.value.value)
  {
    if !HasPdfSuffix(p) then Out(st, Ok(None))
    else
      var a := GetTempFilePath(ctx, st, OutputName(op, NameOf(p)), false);
      match a.r
      case Err(e) =>
        MkdirsRaisesOSError(st.fs, ctx.root + [ctx.uuid(st.used)]);
        Out(a.st, Err(e))
      case Ok(out) =>
        ItemOutputPath(ctx, st, op, p);
        var s := Apply(op, a.st.fs, p, out);
        match s.r
        case Err(_) => Out(St(s.fs, a.st.used), Ok(None))
        case Ok(_) => Out(St(s.fs, a.st.used), Ok(Some(out)))
  }

  /** The output path drawn for a PDF member: `root/<uuid>/<output name>`,
      alone in its own directory. */
  lemma ItemOutputPath(ctx: Ctx, st: St, op: BatchOp, p: Path)
    requires GetTempFilePath(ctx, st, OutputName(op, NameOf(p)), false).r.Ok?
    ensures var out := GetTempFilePath(ctx, st, OutputName(op, NameOf(p)), false).r.value;
            out == ctx.root + [ctx.uuid(st.used), OutputName(op, NameOf(p))] && InOwnDir(ctx, out)
  {
    var name := OutputName(op, NameOf(p));
    var d: Path := ctx.root + [ctx.uuid(st.used)];
    assert NewDir(ctx, st).r == Ok(d);
    OutputNameOrdinary(op, NameOf(p));
    JoinOrdinaryWithin(d, name);
    assert Within(d + [name], ctx.root);
  }

  /** One iteration of the loop, as a function of the state and the member. */
  type ItemFn = (St, Path) -> Out<Option<RawPath>>

  function ItemOf(ctx: Ctx, op: BatchOp): ItemFn
  {
    (s: St, p: Path) => Item(ctx, s, op, p)
  }

  /** The `for` loop: items in extraction order, outputs collected in order;
      an abort in one iteration ends the loop with that error. */
  function Loop(f: ItemFn, st: St, ps: seq<Path>): (o: Out<seq<RawPath>>)
    ensures o.r.Ok? ==> |o.r.value| <= |ps|
    decreases |ps|
  {
    if |ps| == 0 then Out(st, Ok([]))
    else
      var h := f(st, ps[0]);
      match h.r
      case Err(e) => Out(h.st, Err(e))
      case Ok(x) =>
        var t := Loop(f, h.st, ps[1..]);
        match t.r
        case Err(e) => Out(t.st, Err(e))
        case Ok(outs) => Out(t.st, Ok((if x.Some? then [x.value] else []) + outs))
  }

  /** Running the loop from a previous outcome: an error stops it, otherwise
      the new outputs are appended. */
  function Resume(f: ItemFn, o: Out<seq<RawPath>>, ps: seq<Path>): Out<seq<RawPath>>
  {
    match o.r
    case Err(_) => o
    case Ok(done) =>
      var t := Loop(f, o.st, ps);
      match t.r
      case Err(e) => Out(t.st, Err(e))
      case Ok(outs) => Out(t.st, Ok(done + outs))
  }

  /** The loop over a concatenation is the loop over the first part resumed
      on the second. */
  lemma {:induction false} LoopAppend(f: ItemFn, st: St, a: seq<Path>, b: seq<Path>)
    ensures Loop(f, st, a + b) == Resume(f, Loop(f, st, a), b)
    decreases |a|
  {
    if |a| == 0 {
      assert a + b == b;
      var t := Loop(f, st, b);
      if t.r.Ok? {
        assert [] + t.r.value == t.r.value;
      }
    } else {
      var ab := a + b;
      assert ab[0] == a[0] && ab[1..] == a[1..] + b;
      var h := f(st, a[0]);
      if h.r.Ok? {
        LoopAppend(f, h.st, a[1..], b);
        var head := if h.r.value.Some? then [h.r.value.value] else [];
        var t := Loop(f, h.st, a[1..]);
        if t.r.Ok? {
          var u := Loop(f, t.st, b);
          if u.r.Ok? {
            assert head + (t.r.value + u.r.value) == (head + t.r.value) + u.r.value;
          }
        }
      }
    }
  }

  /** What every iteration guarantees, every run of the loop guarantees: aborts
      are ordinary exceptions and outputs sit in their own directories. */
  lemma {:induction false} LoopOutcome(ctx: Ctx, f: ItemFn, st: St, ps: seq<Path>)
    requires forall s, p :: f(s, p).r.Err? ==> f(s, p).r.error.Exc?
    requires forall s, p :: f(s, p).r.Ok? && f(s, p).r.value.Some? ==> InOwnDir(ctx, f(s, p).r.value.value)
    ensures Loop(f, st, ps).r.Err? ==> Loop(f, st, ps).r.error.Exc?
    ensures Loop(f, st, ps).r.Ok? ==> forall i :: 0 <= i < |Loop(f, st, ps).r.value| ==> InOwnDir(ctx, Loop(f, st, ps).r.value[i])
    decreases |ps|
  {
    if |ps| > 0 {
      var h := f(st, ps[0]);
      if h.r.Ok? {
        LoopOutcome(ctx, f, h.st, ps[1..]);
      }
    }
  }

  /** The extracted paths the loop acts on. */
  function PdfOnly(ps: seq<Path>): (qs: seq<Path>)
    ensures |qs| <= |ps|
    ensures forall i :: 0 <= i < |qs| ==> HasPdfSuffix(qs[i])
    ensures forall q :: q in qs ==> q in ps
  {
    if |ps| == 0 then []
    else if HasPdfSuffix(ps[0]) then [ps[0]] + PdfOnly(ps[1..])
    else PdfOnly(ps[1..])
  }

  /** An iteration that passes over every non-PDF untouched. */
  ghost predicate SkipsNonPdf(f: ItemFn)
  {
    forall s, p: Path :: !HasPdfSuffix(p) ==> f(s, p) == Out(s, Ok(None))
  }

  /** Members without a `.pdf` suffix play no part: the loop over the
      extraction equals the loop over its PDFs alone. */
  lemma {:induction false} LoopIgnoresNonPdf(f: ItemFn, st: St, ps: seq<Path>)
    requires SkipsNonPdf(f)
    ensures Loop(f, st, ps) == Loop(f, st, PdfOnly(ps))
    decreases |ps|
  {
    if |ps| > 0 {
      if HasPdfSuffix(ps[0]) {
        var qs := [ps[0]] + PdfOnly(ps[1..]);
        assert qs[0] == ps[0] && qs[1..] == PdfOnly(ps[1..]);
        var h := f(st, ps[0]);
        if h.r.Ok? {
          LoopIgnoresNonPdf(f, h.st, ps[1..]);
        }
      } else {
        LoopIgnoresNonPdf(f, st, ps[1..]);
        var t := Loop(f, st, ps[1..]);
        if t.r.Ok? {
          assert [] + t.r.value == t.r.value;
        }
      }
    }
  }

  /** The batch iteration skips every non-PDF, aborts only with an ordinary
      exception, and puts each output alone in a new directory under the root. */
  lemma ItemOfSpec(ctx: Ctx, op: BatchOp)
    ensures SkipsNonPdf(ItemOf(ctx, op))
    ensures forall s, p :: ItemOf(ctx, op)(s, p).r.Err? ==> ItemOf(ctx, op)(s, p).r.error.Exc?
    ensures forall s, p :: ItemOf(ctx, op)(s, p).r.Ok? && ItemOf(ctx, op)(s, p).r.value.Some? ==>
              InOwnDir(ctx, ItemOf(ctx, op)(s, p).r.value.value)
  {
    var f := ItemOf(ctx, op);
    forall s, p: Path
      ensures !HasPdfSuffix(p) ==> f(s, p) == Out(s, Ok(None))
      ensures f(s, p).r.Err? ==> f(s, p).r.error.Exc?
      ensures f(s, p).r.Ok? && f(s, p).r.value.Some? ==> InOwnDir(ctx, f(s, p).r.value.value)
    {
      assert f(s, p) == Item(ctx, s, op, p);
    }
  }

  /** With no PDF among the members the loop does nothing at all. */
  lemma {:induction false} LoopNoPdf(f: ItemFn, st: St, ps: seq<Path>)
    requires SkipsNonPdf(f)
    requires forall i :: 0 <= i < |ps| ==> !HasPdfSuffix(ps[i])
    ensures Loop(f, st, ps) == Out(st, Ok([]))
    decreases |ps|
  {
    if |ps| > 0 {
      assert f(st, ps[0]) == Out(st, Ok(None));
      LoopNoPdf(f, st, ps[1..]);
    }
  }

  // ---------------------------------------------------------------- the endpoint

  /** The `try` block after staging: extract, require members, run the loop,
      require an output, zip the outputs. */
  function BatchBody(g: Guard, ctx: Ctx, st: St, zlib: ZipLib, op: BatchOp, zipIn: Path, dir: Path, outZip: RawPath): (o: Out<seq<RawPath>>)
    ensures o.r.Err? && o.r.error.HttpException? ==>
              (o.r.error.status == 400 && o.r.error.detail == NoPdfsFound())
              || (o.r.error.status == 500 && o.r.error.detail == NoneDone(op))
  {
    var x := ExtractWith(g, zlib, st.fs, zipIn, dir);
    match x.r
    case Err(e) =>
      MkdirsRaisesOSError(st.fs, dir);
      Out(St(x.fs, st.used), Err(e))
    case Ok(ps) =>
      if |ps| == 0 then Out(St(x.fs, st.used), Err(HttpException(400, NoPdfsFound())))
      else
        var f := Loop(ItemOf(ctx, op), St(x.fs, st.used), ps);
        match f.r
        case Err(e) =>
          ItemOfSpec(ctx, op);
          LoopOutcome(ctx, ItemOf(ctx, op), St(x.fs, st.used), ps);
          Out(f.st, Err(e))
        case Ok(outs) =>
          if |outs| == 0 then Out(f.st, Err(HttpException(500, NoneDone(op))))
          else
            var z := CreateZipArchive(zlib, f.st.fs, outs, outZip);
            match z.r
            case Err(e) => Out(St(z.fs, f.st.used), Err(e))
            case Ok(_) => Out(St(z.fs, f.st.used), Ok(outs))
  }

  /** The `try`/`finally` once the archive is staged, the extraction directory
      named and the output archive path allocated. */
  function BatchStaged(g: Guard, ctx: Ctx, st: St, zlib: ZipLib, op: BatchOp, zipIn: Path, dir: Path, outZip: RawPath,
                       outputZipFilename: string): Response
  {
    var t := BatchBody(g, ctx, st, zlib, op, zipIn, dir, outZip);
    var st' := St(CleanupTempFiles(ctx, CleanupTempFile(ctx, t.st.fs, zipIn), dir), t.st.used);
    match t.r
    case Err(e) => Failure(e, FailPrefix(op), st')
    case Ok(outs) =>
      Response(200, FileBody(outZip, outputZipFilename, "application/zip"), st', BatchTasks(zipIn, dir, outs, outZip))
  }

  /** Staging, outside any `try`: a failure there is an unhandled 500. */
  function BatchJob(g: Guard, ctx: Ctx, st: St, zlib: ZipLib, op: BatchOp, zipUp: Upload, outputZipFilename: string): Response
  {
    var s := SaveTempFile(ctx, st, zipUp);
    match s.r
    case Err(_) => Unhandled(s.st)
    case Ok(zipIn) =>
      var e := NewDir(ctx, s.st);
      match e.r
      case Err(_) => Unhandled(e.st)
      case Ok(dir) =>
        var oz := GetTempFilePath(ctx, e.st, outputZipFilename, false);
        match oz.r
        case Err(_) => Unhandled(oz.st)
        case Ok(outZip) => BatchStaged(g, ctx, oz.st, zlib, op, zipIn, dir, outZip, outputZipFilename)
  }

  predicate IsZipName(filename: string)
  {
    EndsWithNoCase(filename, ".zip")
  }

  /** `POST /batch_redact`; the output archive defaults to `redacted_pdfs.zip`. */
  function BatchRedactPdfs(g: Guard, ctx: Ctx, st: St, zlib: ZipLib, lib: PdfLib, parse: JsonParser, zipUp: Upload,
                           termsJson: string, outputZipFilename: string): Response
  {
    if !IsZipName(zipUp.filename) then Reject(400, "Input must be a ZIP file.", st)
    else
      match StringTerms(parse, termsJson)
      case Err(e) => Failure(e, "", st)
      case Ok(terms) => BatchJob(g, ctx, st, zlib, BatchRedact(lib, terms), zipUp, outputZipFilename)
  }

  /** `POST /batch_ocr_translate`; defaults `eng` and `ocr_translated_texts.zip`. */
  function BatchOcrTranslatePdfs(g: Guard, ctx: Ctx, st: St, zlib: ZipLib, ocr: OcrLib, tr: Translator, encode: string -> Bytes,
                                 zipUp: Upload, ocrLanguage: string, translateTo: Option<string>,
                                 outputZipFilename: string): Response
  {
    if !IsZipName(zipUp.filename) then Reject(400, "Input must be a ZIP file.", st)
    else BatchJob(g, ctx, st, zlib, BatchOcr(ocr, tr, encode, ocrLanguage, translateTo), zipUp, outputZipFilename)
  }

  /** `POST /batch_scrub_metadata`; the output archive defaults to `scrubbed_pdfs.zip`. */
  function BatchScrubPdfs(g: Guard, ctx: Ctx, st: St, zlib: ZipLib, lib: PdfLib, zipUp: Upload, outputZipFilename: string): Response
  {
    if !IsZipName(zipUp.filename) then Reject(400, "Input must be a ZIP file.", st)
    else BatchJob(g, ctx, st, zlib, BatchScrub(lib), zipUp, outputZipFilename)
  }

  // ---------------------------------------------------------------- properties

  /** The redaction batch accepts exactly the archives named `*.zip` (any case)
      whose terms decode to a list of strings; a rejected request gets 400 with
      the matching detail, stages nothing and queues nothing. */
  lemma BatchRedactValidation(g: Guard, ctx: Ctx, st: St, zlib: ZipLib, lib: PdfLib, parse: JsonParser, zipUp: Upload,
                              termsJson: string, outputZipFilename: string)
    ensures var r := BatchRedactPdfs(g, ctx, st, zlib, lib, parse, zipUp, termsJson, outputZipFilename);
            var valid := IsZipName(zipUp.filename) && parse(termsJson).Some? && IsStringList(parse(termsJson).value);
            && (!valid ==> r.status == 400 && r.st == st && r.tasks == [])
            && (valid ==> r == BatchJob(g, ctx, st, zlib, BatchRedact(lib, parse(termsJson).value.items), zipUp, outputZipFilename))
            && (!IsZipName(zipUp.filename) ==> r.body == Detail("Input must be a ZIP file."))
            && (IsZipName(zipUp.filename) && parse(termsJson).None? ==>
                  r.body == Detail("Invalid JSON format for `terms_to_redact_json`."))
            && (IsZipName(zipUp.filename) && parse(termsJson).Some? && !IsStringList(parse(termsJson).value) ==>
                  r.body == Detail("`terms_to_redact_json` must be a JSON array of strings."))
  {
  }

  /** The OCR and scrub batches check the archive's name only. */
  lemma BatchNameCheck(g: Guard, ctx: Ctx, st: St, zlib: ZipLib, ocr: OcrLib, tr: Translator, encode: string -> Bytes,
                       lib: PdfLib, zipUp: Upload, ocrLanguage: string, translateTo: Option<string>,
                       outputZipFilename: string)
    ensures var r := BatchOcrTranslatePdfs(g, ctx, st, zlib, ocr, tr, encode, zipUp, ocrLanguage, translateTo, outputZipFilename);
            && (!IsZipName(zipUp.filename) ==> r == Reject(400, "Input must be a ZIP file.", st))
            && (IsZipName(zipUp.filename) ==>
                  r == BatchJob(g, ctx, st, zlib, BatchOcr(ocr, tr, encode, ocrLanguage, translateTo), zipUp, outputZipFilename))
    ensures var r := BatchScrubPdfs(g, ctx, st, zlib, lib, zipUp, outputZipFilename);
            && (!IsZipName(zipUp.filename) ==> r == Reject(400, "Input must be a ZIP file.", st))
            && (IsZipName(zipUp.filename) ==> r == BatchJob(g, ctx, st, zlib, BatchScrub(lib), zipUp, outputZipFilename))
  {
  }

  /** The `finally` clause: once the `try` block is entered, the staged archive
      and the extraction directory are gone when the response is sent, on
      every exit path. */
  lemma BatchStagedCleans(g: Guard, ctx: Ctx, st: St, zlib: ZipLib, op: BatchOp, zipIn: Path, dir: Path, outZip: RawPath,
                          outputZipFilename: string)
    requires |zipIn| > 0 && |dir| > 0
    ensures var r := BatchStaged(g, ctx, st, zlib, op, zipIn, dir, outZip, outputZipFilename);
            !Exists(r.st.fs, zipIn) && !Exists(r.st.fs, dir)
  {
    var t := BatchBody(g, ctx, st, zlib, op, zipIn, dir, outZip);
    var fs1 := CleanupTempFile(ctx, t.st.fs, zipIn);
    CleanupRemovesStaged(ctx, t.st.fs, zipIn);
    WalkOfPath(fs1, dir);
    TaskRemovesTarget(ctx, fs1, CleanFiles(dir));
    TaskShrinks(ctx, fs1, CleanFiles(dir));
    ExistsInSub(RunTask(ctx, fs1, CleanFiles(dir)), fs1, zipIn);
  }

  /** An archive with no members at all is refused with 400. */
  lemma BatchEmptyArchive(g: Guard, ctx: Ctx, st: St, zlib: ZipLib, op: BatchOp, zipIn: Path, dir: Path, outZip: RawPath,
                          outputZipFilename: string)
    requires ExtractWith(g, zlib, st.fs, zipIn, dir).r == Ok([])
    ensures var r := BatchStaged(g, ctx, st, zlib, op, zipIn, dir, outZip, outputZipFilename);
            r.status == 400 && r.body == Detail(NoPdfsFound()) && r.tasks == []
  {
  }

  /** An archive with members but none with a `.pdf` suffix is not refused as
      empty: the loop produces nothing and the answer is the 500 for "nothing
      was processed". */
  lemma BatchNoPdfMembers(g: Guard, ctx: Ctx, st: St, zlib: ZipLib, op: BatchOp, zipIn: Path, dir: Path, outZip: RawPath,
                          outputZipFilename: string, ps: seq<Path>)
    requires ExtractWith(g, zlib, st.fs, zipIn, dir).r == Ok(ps)
    requires |ps| > 0 && forall i :: 0 <= i < |ps| ==> !HasPdfSuffix(ps[i])
    ensures var r := BatchStaged(g, ctx, st, zlib, op, zipIn, dir, outZip, outputZipFilename);
            r.status == 500 && r.body == Detail(NoneDone(op)) && r.tasks == []
  {
    var x := ExtractWith(g, zlib, st.fs, zipIn, dir);
    ItemOfSpec(ctx, op);
    LoopNoPdf(ItemOf(ctx, op), St(x.fs, st.used), ps);
  }

  /** The `try` block succeeds only with at least one output, each alone in
      its own directory under the root. */
  lemma BatchBodyOutputs(g: Guard, ctx: Ctx, st: St, zlib: ZipLib, op: BatchOp, zipIn: Path, dir: Path, outZip: RawPath)
    ensures var t := BatchBody(g, ctx, st, zlib, op, zipIn, dir, outZip);
            t.r.Ok? ==> |t.r.value| > 0 && forall i :: 0 <= i < |t.r.value| ==> InOwnDir(ctx, t.r.value[i])
  {
    var t := BatchBody(g, ctx, st, zlib, op, zipIn, dir, outZip);
    if t.r.Ok? {
      var x := ExtractWith(g, zlib, st.fs, zipIn, dir);
      ItemOfSpec(ctx, op);
      LoopOutcome(ctx, ItemOf(ctx, op), St(x.fs, st.used), x.r.value);
    }
  }

  /** The queue a successful batch leaves: the staged archive, the extraction
      directory, each output, the output archive. */
  function BatchTasks(zipIn: RawPath, dir: RawPath, outs: seq<RawPath>, outZip: RawPath): seq<Task>
  {
    [CleanFile(zipIn), CleanFiles(dir)] + CleanTasks(outs) + [CleanFile(outZip)]
  }

  /** Running that queue removes everything it names. */
  lemma BatchTasksRemove(ctx: Ctx, fs: FS, zipIn: Path, dir: Path, outs: seq<RawPath>, outZip: Path)
    requires |zipIn| > 0 && |dir| > 0 && |outZip| > 0
    requires forall i :: 0 <= i < |outs| ==> InOwnDir(ctx, outs[i])
    ensures var ts := BatchTasks(zipIn, dir, outs, outZip);
            && |ts| == |outs| + 3
            && ts[0] == CleanFile(zipIn) && ts[1] == CleanFiles(dir) && ts[|ts| - 1] == CleanFile(outZip)
            && (forall i :: 2 <= i < |ts| - 1 ==> ts[i].CleanFile? && InOwnDir(ctx, ts[i].path))
            && (forall i :: 0 <= i < |ts| ==> !Exists(RunTasks(ctx, fs, ts), ts[i].path))
  {
    var ts := BatchTasks(zipIn, dir, outs, outZip);
    forall i | 2 <= i < |ts| - 1
      ensures ts[i].CleanFile? && InOwnDir(ctx, ts[i].path)
    {
      assert ts[i] == CleanTasks(outs)[i - 2];
    }
    forall i | 0 <= i < |ts|
      ensures Walk(fs, ts[i].path) != Some([]) && (ts[i].CleanFile? || ts[i].CleanFiles?)
    {
      if i < 2 {
      } else if i < |ts| - 1 {
        assert ts[i] == CleanTasks(outs)[i - 2];
        WalkOfPath(fs, outs[i - 2]);
      } else {
        WalkOfPath(fs, outZip);
      }
      if i == 0 { WalkOfPath(fs, zipIn); }
      if i == 1 { WalkOfPath(fs, dir); }
    }
    TasksRemoveTargets(ctx, fs, ts);
  }

  /** A successful batch answers with the output archive and queues, in order,
      the staged archive, the extraction directory, one cleanup per output
      (each alone in its own directory under the root) and the output archive;
      running the queue removes every one of them. */
  lemma BatchStagedSuccess(g: Guard, ctx: Ctx, st: St, zlib: ZipLib, op: BatchOp, zipIn: Path, dir: Path, outZip: Path,
                           outputZipFilename: string)
    requires |zipIn| > 0 && |dir| > 0 && |outZip| > 0
    ensures var r := BatchStaged(g, ctx, st, zlib, op, zipIn, dir, outZip, outputZipFilename);
            r.status == 200 ==>
              && r.body == FileBody(outZip, outputZipFilename, "application/zip")
              && |r.tasks| >= 4
              && r.tasks[0] == CleanFile(zipIn) && r.tasks[1] == CleanFiles(dir)
              && r.tasks[|r.tasks| - 1] == CleanFile(outZip)
              && (forall i :: 2 <= i < |r.tasks| - 1 ==> r.tasks[i].CleanFile? && InOwnDir(ctx, r.tasks[i].path))
              && (forall i :: 0 <= i < |r.tasks| ==> !Exists(RunTasks(ctx, r.st.fs, r.tasks), r.tasks[i].path))
  {
    var r := BatchStaged(g, ctx, st, zlib, op, zipIn, dir, outZip, outputZipFilename);
    var t := BatchBody(g, ctx, st, zlib, op, zipIn, dir, outZip);
    if t.r.Ok? {
      BatchBodyOutputs(g, ctx, st, zlib, op, zipIn, dir, outZip);
      var outs := t.r.value;
      assert r.tasks == BatchTasks(zipIn, dir, outs, outZip);
      BatchTasksRemove(ctx, r.st.fs, zipIn, dir, outs, outZip);
    } else {
      assert r.status != 200;
    }
  }

  /** The staging steps sit outside the `try`: if any of them fails the answer
      is a bare 500 and nothing is cleaned up; once all three succeed the
      staged archive and the extraction directory are gone on every exit. */
  lemma BatchJobCleanup(g: Guard, ctx: Ctx, st: St, zlib: ZipLib, op: BatchOp, zipUp: Upload, outputZipFilename: string)
    ensures var r := BatchJob(g, ctx, st, zlib, op, zipUp, outputZipFilename);
            var s := SaveTempFile(ctx, st, zipUp);
            && (s.r.Err? ==> r == Unhandled(s.st))
            && (s.r.Ok? && NewDir(ctx, s.st).r.Ok? ==>
                  var e := NewDir(ctx, s.st);
                  var oz := GetTempFilePath(ctx, e.st, outputZipFilename, false);
                  && (oz.r.Err? ==> r == Unhandled(oz.st))
                  && (oz.r.Ok? ==> !Exists(r.st.fs, s.r.value) && !Exists(r.st.fs, e.r.value)))
  {
    var s := SaveTempFile(ctx, st, zipUp);
    if s.r.Ok? && NewDir(ctx, s.st).r.Ok? {
      var e := NewDir(ctx, s.st);
      var oz := GetTempFilePath(ctx, e.st, outputZipFilename, false);
      if oz.r.Ok? {
        BatchStagedCleans(g, ctx, oz.st, zlib, op, s.r.value, e.r.value, oz.r.value, outputZipFilename);
      }
    }
  }

  // ---------------------------------------------------------------- as written

  /** As written, the `try` block never succeeds: an extraction that fails is
      the catch-all 500 with the batch's prefix, and one that succeeds has
      yielded no path, which is the 400 for an archive without PDFs. */
  lemma BatchStagedAsWritten(ctx: Ctx, st: St, zlib: ZipLib, op: BatchOp, zipIn: Path, dir: Path, outZip: RawPath,
                             outputZipFilename: string)
    ensures var r := BatchStaged(StartsWith, ctx, st, zlib, op, zipIn, dir, outZip, outputZipFilename);
            var x := ExtractZipAsWritten(zlib, st.fs, zipIn, dir);
            && r.status != 200 && r.tasks == []
            && (x.r.Ok? ==> r.status == 400 && r.body == Detail(NoPdfsFound()))
            && (x.r.Err? ==> r.status == 500 && r.body == Detail(FailPrefix(op) + Text(x.r.error)))
  {
    AsWrittenExtractsNothing(zlib, st.fs, zipIn, dir);
    if Mkdirs(st.fs, dir).Err? {
      ExtractMkdirsFails(StartsWith, zlib, st.fs, zipIn, dir);
    }
  }

  /** As written, an archive holding any member that is not a directory entry
      is answered 500 "Failed to perform batch …: Failed to extract ZIP
      archive: 'PosixPath' object has no attribute 'starts_with'". */
  lemma BatchAsWrittenFileMember(ctx: Ctx, st: St, zlib: ZipLib, op: BatchOp, zipIn: Path, dir: Path, outZip: RawPath,
                                 outputZipFilename: string, fs1: FS, data: Bytes, z: Zip, k: nat)
    requires Mkdirs(st.fs, dir) == Ok(fs1) && Read(fs1, zipIn) == Ok(data) && zlib.parse(data) == Some(z)
    requires k < |z| && !EndsWith(z[k].name, "/")
    ensures var r := BatchStaged(StartsWith, ctx, st, zlib, op, zipIn, dir, outZip, outputZipFilename);
            r.status == 500 && r.body == Detail(FailPrefix(op) + ExtractFailed(NoStartsWith).msg) && r.tasks == []
  {
    AsWrittenFileMemberFails(zlib, st.fs, zipIn, dir, fs1, data, z, k);
  }

  /** As written, a batch job never answers 200 and never queues a cleanup. */
  lemma BatchJobAsWritten(ctx: Ctx, st: St, zlib: ZipLib, op: BatchOp, zipUp: Upload, outputZipFilename: string)
    ensures var r := BatchJob(StartsWith, ctx, st, zlib, op, zipUp, outputZipFilename);
            r.status != 200 && r.tasks == []
  {
    var s := SaveTempFile(ctx, st, zipUp);
    if s.r.Ok? && NewDir(ctx, s.st).r.Ok? {
      var e := NewDir(ctx, s.st);
      var oz := GetTempFilePath(ctx, e.st, outputZipFilename, false);
      if oz.r.Ok? {
        BatchStagedAsWritten(ctx, oz.st, zlib, op, s.r.value, e.r.value, oz.r.value, outputZipFilename);
      }
    }
  }

  /** As written, none of the three batch endpoints ever answers 200, whatever
      the archive, the terms or the options. */
  lemma BatchAsWrittenNeverServes(ctx: Ctx, st: St, zlib: ZipLib, lib: PdfLib, parse: JsonParser, ocr: OcrLib,
                                  tr: Translator, encode: string -> Bytes, zipUp: Upload, termsJson: string,
                                  ocrLanguage: string, translateTo: Option<string>, outputZipFilename: string)
    ensures BatchRedactPdfs(StartsWith, ctx, st, zlib, lib, parse, zipUp, termsJson, outputZipFilename).status != 200
    ensures BatchOcrTranslatePdfs(StartsWith, ctx, st, zlib, ocr, tr, encode, zipUp, ocrLanguage, translateTo,
                                  outputZipFilename).status != 200
    ensures BatchScrubPdfs(StartsWith, ctx, st, zlib, lib, zipUp, outputZipFilename).status != 200
  {
    if StringTerms(parse, termsJson).Ok? {
      BatchJobAsWritten(ctx, st, zlib, BatchRedact(lib, StringTerms(parse, termsJson).value), zipUp, outputZipFilename);
    }
    BatchJobAsWritten(ctx, st, zlib, BatchOcr(ocr, tr, encode, ocrLanguage, translateTo), zipUp, outputZipFilename);
    BatchJobAsWritten(ctx, st, zlib, BatchScrub(lib), zipUp, outputZipFilename);
  }
}
