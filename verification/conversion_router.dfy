/** The eight endpoints of `app/routers/convert/conversion.py` (mounted under
    `/api/convert`): the content-type guard, the `TEMP_DIR/<uuid4>/`
    workspace, staging the uploads into it under the client's names, the
    conversion, and how each endpoint turns exceptions into HTTP errors. A
    successful response removes the workspace once it has been sent; a failed
    one leaves it behind. */
module ConversionRouter {
  import opened Wrappers
  import opened Errors
  import opened PyStr
  import opened PyPath
  import opened FileSystem
  import opened TempStorage
  import opened Archive
  import opened Jobs
  import opened Layout
  import opened Conversion

  /** An upload and the content type the client declared for it. */
  datatype Part = Part(file: Upload, contentType: string)

  // ---------------------------------------------------------------- the workspace

  /** How an endpoint's `except` clauses treat an exception: some re-raise an
      `HTTPException` unchanged; the rest becomes a 500 whose detail is the
      endpoint's prefix, `str(e)` and its suffix. */
  datatype Handling = Handling(passHttp: bool, prefix: string, suffix: string)

  /** `str(e)`: Starlette's `HTTPException` prints as "status: detail". */
  function Str(e: Exc): string
  {
    if e.Exc? then e.msg else NatToString(e.status) + ": " + e.detail
  }

  /** The detail of a 500: the endpoint's prefix and suffix around a message. */
  function Wrapped(h: Handling, msg: string): string
  {
    h.prefix + msg + h.suffix
  }

  function Caught(h: Handling, e: Exc, st: St): Response
  {
    if h.passHttp && e.HttpException? then Reject(e.status, e.detail, st)
    else Reject(500, Wrapped(h, Str(e)), st)
  }

  /** The name, media type and extra cleanup of a successful answer. */
  datatype Answer = Answer(filename: string, mediaType: string, unlink: bool)

  /** The background of a successful answer: `shutil.rmtree(processing_dir,
      ignore_errors=True)`, and for `pdf_to_images` also unlinking the answer. */
  function Tasks(dir: Path, res: RawPath, unlink: bool): seq<Task>
  {
    [RmTreeQuiet(dir)] + (if unlink then [UnlinkQuiet(res)] else [])
  }

  /** `processing_dir / f.filename` for each upload, the names used verbatim. */
  function StagedPaths(dir: Path, ups: seq<Upload>): (ps: seq<RawPath>)
    ensures |ps| == |ups| && forall i :: 0 <= i < |ups| ==> ps[i] == Join(dir, ups[i].filename)
  {
    seq(|ups|, i requires 0 <= i < |ups| => Join(dir, ups[i].filename))
  }

  function Contents(ups: seq<Upload>): (cs: seq<Bytes>)
    ensures |cs| == |ups| && forall i :: 0 <= i < |ups| ==> cs[i] == ups[i].content
  {
    seq(|ups|, i requires 0 <= i < |ups| => ups[i].content)
  }

  /** `open(processing_dir / f.filename, "wb")` and `copyfileobj` for each upload. */
  function StageInto(fs: FS, dir: Path, ups: seq<Upload>): Step<seq<RawPath>>
  {
    WriteAll(fs, StagedPaths(dir, ups), Contents(ups))
  }

  /** A conversion run in the workspace: the file system and the directory,
      giving the path to answer with. */
  type Convert = (FS, Path) -> Step<RawPath>

  /** `processing_dir.mkdir(exist_ok=True)` outside `try` (its failure is not
      caught), then the guarded body. Every request draws one uuid. */
  function WorkspaceJob(ctx: Ctx, st: St, ups: seq<Upload>, convert: Convert, h: Handling, a: Answer): (r: Response)
    ensures r.st.used == st.used + 1
  {
    var o := NewDir(ctx, st);
    match o.r
    case Err(_) => Unhandled(o.st)
    case Ok(dir) => Workspace(o.st, dir, ups, convert, h, a)
  }

  /** Inside `try`: stage, convert, answer with the converted file. */
  function Workspace(st: St, dir: Path, ups: seq<Upload>, convert: Convert, h: Handling, a: Answer): (r: Response)
    ensures r.st.used == st.used
    ensures r.body.FileBody? ==> r.status == 200 && r.tasks == Tasks(dir, r.body.path, a.unlink)
    ensures r.body.FileBody? ==> r.body.filename == a.filename && r.body.mediaType == a.mediaType
    ensures !r.body.FileBody? ==> r.tasks == []
  {
    var w := StageInto(st.fs, dir, ups);
    match w.r
    case Err(e) => Caught(h, e, St(w.fs, st.used))
    case Ok(_) =>
      Finish(convert(w.fs, dir), dir, h, a, st.used)
  }

  /** The answer to a conversion's outcome: its file, or the caught error. */
  function Finish(t: Step<RawPath>, dir: Path, h: Handling, a: Answer, used: nat): Response
  {
    match t.r
    case Err(e) => Caught(h, e, St(t.fs, used))
    case Ok(res) => Response(200, FileBody(res, a.filename, a.mediaType), St(t.fs, used), Tasks(dir, res, a.unlink))
  }

  /** The workspace of the request that draws uuid number `n`. */
  function WorkDir(ctx: Ctx, n: nat): Path
  {
    ctx.root + [ctx.uuid(n)]
  }

  // ---------------------------------------------------------------- staging

  /** Every path is distinct from the others. */
  ghost predicate Distinct(ps: seq<RawPath>)
  {
    forall i, j :: 0 <= i < j < |ps| ==> ps[i] != ps[j]
  }

  /** The file system once the workspace is made and the upload staged in it. */
  function Staged(st: St, dir: Path, u: Upload): FS
    requires IsOrdinary(u.filename)
  {
    st.fs[dir := Dir][dir + [u.filename] := File(u.content)]
  }

  // ---------------------------------------------------------------- messages

  function OnlyPdf(): string { "Only PDF files are allowed." }
  function NoImageFiles(): string { "No image files provided." }
  function OnlyImages(): string { "Only JPG or PNG images are allowed." }
  function OnlyTxt(): string { "Only TXT files are allowed." }
  function OnlyPowerPoint(): string { "Only PPTX or PPT files are allowed." }
  function OnlyPdfForAny(): string { "Only PDF files are allowed for PDF to Any conversion." }
  function UnsupportedType(ct: string): string { "Unsupported file type for direct conversion to PDF: " + ct }
  function OutputMissing(): string { "Conversion to PDF failed. Output file not found." }

  /** The suffix of the LibreOffice endpoints' 500 detail. */
  function OfficeHint(): string { ". Ensure LibreOffice is installed on server." }

  // ---------------------------------------------------------------- pdf_to_images

  /** Render the pages next to the upload, then zip the whole workspace as
      `TEMP_DIR/output_zip_filename` with ".zip" as its suffix. */
  function PdfToImagesSteps(lib: ConvLib, packer: Packer, root: Path, fs: FS, dir: Path,
                            filename: string, fmt: string, zipName: string): Step<RawPath>
  {
    var imgs := ConvertPdfToImagesLib(lib, fs, Join(dir, filename), dir, fmt);
    match imgs.r
    case Err(e) => Step(imgs.fs, Err(e))
    case Ok(_) =>
      var zipPath := Join(root, zipName);
      if |zipPath| == 0 then Step(imgs.fs, Err(WithSuffix(zipPath, "").error))
      else
        var made := MakeArchive(packer, imgs.fs, WithSuffix(zipPath, "").value, dir);
        match made.r
        case Err(e) => Step(made.fs, Err(e))
        case Ok(_) => Step(made.fs, WithSuffix(zipPath, ".zip"))
  }

  /** `POST /api/convert/pdf_to_images`. */
  function PdfToImages(ctx: Ctx, st: St, lib: ConvLib, packer: Packer, p: Part, fmt: string, zipName: string): Response
  {
    if p.contentType != "application/pdf" then Reject(400, OnlyPdf(), st)
    else
      WorkspaceJob(ctx, st, [p.file], ImagesConvert(lib, packer, ctx.root, p.file.filename, fmt, zipName),
                   Handling(false, "Conversion failed: ", ""), Answer(zipName, "application/zip", true))
  }

  function ImagesConvert(lib: ConvLib, packer: Packer, root: Path, filename: string, fmt: string, zipName: string): Convert
  {
    (fs: FS, dir: Path) => PdfToImagesSteps(lib, packer, root, fs, dir, filename, fmt, zipName)
  }

  // ---------------------------------------------------------------- pdf_to_text

  /** `POST /api/convert/pdf_to_text`. */
  function PdfToText(ctx: Ctx, st: St, lib: ConvLib, p: Part, outName: string): Response
  {
    if p.contentType != "application/pdf" then Reject(400, OnlyPdf(), st)
    else
      WorkspaceJob(ctx, st, [p.file], PdfTextConvert(lib, p.file.filename, outName),
                   Handling(false, "Text extraction failed: ", ""), Answer(outName, "text/plain", false))
  }

  function PdfTextConvert(lib: ConvLib, filename: string, outName: string): Convert
  {
    (fs: FS, dir: Path) => ConvertPdfToTextLib(lib, fs, Join(dir, filename), Join(dir, outName))
  }

  // ---------------------------------------------------------------- pdf_to_pptx, pptx_to_pdf, pdf_to_any

  /** `POST /api/convert/pdf_to_pptx`. */
  function PdfToPptx(ctx: Ctx, st: St, office: Office, p: Part, outName: string): Response
  {
    if p.contentType != "application/pdf" then Reject(400, OnlyPdf(), st)
    else
      WorkspaceJob(ctx, st, [p.file], OfficeConvert(office, p.file.filename, "pptx"),
                   Handling(true, "PDF to PPTX conversion failed: ", OfficeHint()), Answer(outName, PptxType(), false))
  }

  /** LibreOffice run on the staged upload, writing into the workspace. */
  function OfficeConvert(office: Office, filename: string, fmt: string): Convert
  {
    (fs: FS, dir: Path) => ConvertViaLibreOffice(office, fs, Join(dir, filename), dir, fmt)
  }

  /** `POST /api/convert/pptx_to_pdf`. */
  function PptxToPdf(ctx: Ctx, st: St, office: Office, p: Part, outName: string): Response
  {
    if p.contentType !in {PptxType(), PptType()} then Reject(400, OnlyPowerPoint(), st)
    else
      WorkspaceJob(ctx, st, [p.file], OfficeConvert(office, p.file.filename, "pdf"),
                   Handling(true, "PPTX to PDF conversion failed: ", OfficeHint()), Answer(outName, "application/pdf", false))
  }

  /** `POST /api/convert/pdf_to_any`: the answer's name and media type follow
      the target format. */
  function PdfToAny(ctx: Ctx, st: St, office: Office, p: Part, fmt: string, outName: string): Response
  {
    if p.contentType != "application/pdf" then Reject(400, OnlyPdfForAny(), st)
    else
      WorkspaceJob(ctx, st, [p.file], OfficeConvert(office, p.file.filename, fmt), AnyHandling(fmt),
                   Answer(PdfToAnyName(outName, p.file.filename, fmt), MediaTypeFor(fmt), false))
  }

  function AnyHandling(fmt: string): Handling
  {
    Handling(true, "PDF to " + Upper(fmt) + " conversion failed: ", OfficeHint())
  }

  // ---------------------------------------------------------------- images_to_pdf

  function Files(parts: seq<Part>): (ups: seq<Upload>)
    ensures |ups| == |parts| && forall i :: 0 <= i < |parts| ==> ups[i] == parts[i].file
  {
    seq(|parts|, i requires 0 <= i < |parts| => parts[i].file)
  }

  /** Every part is a JPEG or PNG image. */
  predicate AllImages(parts: seq<Part>)
  {
    forall i :: 0 <= i < |parts| ==> parts[i].contentType in ImageTypes()
  }

  /** `POST /api/convert/images_to_pdf`. */
  function ImagesToPdf(ctx: Ctx, st: St, lib: ConvLib, parts: seq<Part>, outName: string): Response
  {
    if |parts| == 0 then Reject(400, NoImageFiles(), st)
    else if !AllImages(parts) then Reject(400, OnlyImages(), st)
    else
      WorkspaceJob(ctx, st, Files(parts), PicturesConvert(lib, Files(parts), outName),
                   Handling(false, "Conversion failed: ", ""), Answer(outName, "application/pdf", false))
  }

  function PicturesConvert(lib: ConvLib, ups: seq<Upload>, outName: string): Convert
  {
    (fs: FS, dir: Path) => ConvertImagesToPdfLib(lib, fs, StagedPaths(dir, ups), Join(dir, outName))
  }

  // ---------------------------------------------------------------- text_to_pdf

  /** `POST /api/convert/text_to_pdf`. */
  function TextToPdf(ctx: Ctx, st: St, lib: ConvLib, p: Part, outName: string): Response
  {
    if p.contentType != "text/plain" then Reject(400, OnlyTxt(), st)
    else
      WorkspaceJob(ctx, st, [p.file], TextConvert(lib, p.file.filename, outName),
                   Handling(false, "Conversion failed: ", ""), Answer(outName, "application/pdf", false))
  }

  function TextConvert(lib: ConvLib, filename: string, outName: string): Convert
  {
    (fs: FS, dir: Path) => ConvertTextToPdfLib(lib, fs, Join(dir, filename), Join(dir, outName))
  }
}
