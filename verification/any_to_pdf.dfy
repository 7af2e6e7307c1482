/** `POST /api/convert/any_to_pdf` of `app/routers/convert/conversion.py`:
    the upload is staged first, then the content type picks a library helper
    or LibreOffice, and the helper's result is checked before it is served.
    The check is modelled both as written and as intended. */
module AnyToPdfEndpoint {
  import opened Wrappers
  import opened Errors
  import opened PyPath
  import opened FileSystem
  import opened TempStorage
  import opened Jobs
  import opened Conversion
  import opened ConversionRouter

  /** How the result of the branch is checked: as written, `.exists()` is
      called on whatever the helper returned, and the library helpers return a
      `str`; as intended, the existence of the returned path is checked. */
  datatype Check = AsWritten | Corrected

  /** `if not converted_pdf_path or not converted_pdf_path.exists()`: a
      non-empty `str` and a `Path` are both true, so only `.exists()` matters. */
  function CheckOutput(check: Check, isStr: bool, s: Step<RawPath>): Step<RawPath>
  {
    match s.r
    case Err(_) => s
    case Ok(out) =>
      if check == AsWritten && isStr then Step(s.fs, Err(Exc(AttributeError, NoExists())))
      else if Exists(s.fs, out) then s
      else Step(s.fs, Err(HttpException(500, OutputMissing())))
  }

  /** The body of `any_to_pdf` after staging, once the `if`/`elif` chain on
      the content type `ct` has picked `route`: the three library helpers
      (whose `str` result is then checked), LibreOffice, or a 400 naming any
      other type. */
  function AnyToPdfSteps(check: Check, lib: ConvLib, office: Office, route: Route, ct: string, fs: FS, dir: Path,
                         filename: string, outName: string): Step<RawPath>
  {
    if route == Unsupported then Step(fs, Err(HttpException(400, UnsupportedType(ct))))
    else if route == OfficeRoute then CheckOutput(check, false, ConvertViaLibreOffice(office, fs, Join(dir, filename), dir, "pdf"))
    else CheckOutput(check, true, LibraryStep(lib, route, fs, dir, filename, outName))
  }

  /** `POST /api/convert/any_to_pdf`, with the output check as written or as
      intended. */
  function AnyToPdf(check: Check, ctx: Ctx, st: St, lib: ConvLib, office: Office, p: Part, outName: string): Response
  {
    WorkspaceJob(ctx, st, [p.file], AnyConvert(check, lib, office, AnyToPdfRoute(p.contentType), p.contentType, p.file.filename, outName),
                 AnyToPdfHandling(), Answer(outName, "application/pdf", false))
  }

  /** `any_to_pdf` re-raises an `HTTPException` and wraps anything else. */
  function AnyToPdfHandling(): Handling
  {
    Handling(true, "Conversion to PDF failed: ", "")
  }

  /** What `AttributeError` says when `.exists()` is called on a `str`. */
  function NoExists(): string { "'str' object has no attribute 'exists'" }

  /** The conversion `any_to_pdf` runs in its workspace, once the content
      type `ct` has picked `route`. */
  function AnyConvert(check: Check, lib: ConvLib, office: Office, route: Route, ct: string, filename: string, outName: string): Convert
  {
    (fs: FS, dir: Path) => AnyToPdfSteps(check, lib, office, route, ct, fs, dir, filename, outName)
  }

  /** The library branch of `any_to_pdf` before the check. */
  function LibraryStep(lib: ConvLib, route: Route, fs: FS, dir: Path, filename: string, outName: string): Step<RawPath>
    requires route.ByLibrary()
  {
    var input := Join(dir, filename);
    var out := Join(dir, outName);
    if route == CsvRoute then ConvertCsvToPdfLib(lib, fs, input, out)
    else if route == TextRoute then ConvertTextToPdfLib(lib, fs, input, out)
    else ConvertImagesToPdfLib(lib, fs, [input], out)
  }
}

/** What `any_to_pdf` does with each kind of upload, under either check. */
module AnyToPdfFacts {
  import opened Wrappers
  import opened Errors
  import opened PyPath
  import opened FileSystem
  import opened TempStorage
  import opened Jobs
  import opened Conversion
  import opened ConversionRouter
  import opened ConversionRouterFacts
  import opened AnyToPdfEndpoint

  /** As written, a CSV, text or image upload is never answered with a file:
      whatever the library does, the `.exists()` call on its `str` result
      fails, so the endpoint ends in a 500 (or the library's own error). */
  lemma AnyToPdfAsWrittenNeverServesLibraries(ctx: Ctx, st: St, lib: ConvLib, office: Office, p: Part, outName: string)
    requires AnyToPdfRoute(p.contentType).ByLibrary()
    ensures !AnyToPdf(AsWritten, ctx, st, lib, office, p, outName).body.FileBody?
  {
    var convert := AnyConvert(AsWritten, lib, office, AnyToPdfRoute(p.contentType), p.contentType, p.file.filename, outName);
    var h := AnyToPdfHandling();
    var a := Answer(outName, "application/pdf", false);
    var o := NewDir(ctx, st);
    if o.r.Ok? && Workspace(o.st, o.r.value, [p.file], convert, h, a).body.FileBody? {
      var dir := o.r.value;
      WorkspaceAnswers(o.st, dir, [p.file], convert, h, a);
      var w := StageInto(o.st.fs, dir, [p.file]);
      LibraryAsWrittenErrs(lib, office, AnyToPdfRoute(p.contentType), p.contentType, w.fs, dir, p.file.filename, outName);
      assert false;
    }
  }

  /** As written, the library branch of the workspace step never succeeds. */
  lemma LibraryAsWrittenErrs(lib: ConvLib, office: Office, route: Route, ct: string, fs: FS, dir: Path, filename: string, outName: string)
    requires route.ByLibrary()
    ensures AnyConvert(AsWritten, lib, office, route, ct, filename, outName)(fs, dir).r.Err?
  {
    LibraryChecked(AsWritten, lib, office, route, ct, fs, dir, filename, outName);
  }

  /** As written, a CSV, text or image upload that the library converts is
      answered with a 500 carrying the `AttributeError`, that is with the
      detail "Conversion to PDF failed: 'str' object has no attribute 'exists'"
      (`AsWrittenDetail`). */
  lemma AnyToPdfAsWrittenFails(ctx: Ctx, st: St, lib: ConvLib, office: Office, p: Part, outName: string)
    requires Ready(ctx, st) && Fresh(ctx, st, 1) && IsOrdinary(p.file.filename)
    requires AnyToPdfRoute(p.contentType).ByLibrary()
    requires var dir := WorkDir(ctx, st.used);
             LibraryStep(lib, AnyToPdfRoute(p.contentType), Staged(st, dir, p.file), dir, p.file.filename, outName).r.Ok?
    ensures var r := AnyToPdf(AsWritten, ctx, st, lib, office, p, outName);
            r.status == 500 && r.body == Detail(Wrapped(AnyToPdfHandling(), NoExists()))
  {
    var dir := WorkDir(ctx, st.used);
    var h := AnyToPdfHandling();
    var convert := AnyConvert(AsWritten, lib, office, AnyToPdfRoute(p.contentType), p.contentType, p.file.filename, outName);
    LibraryAsWrittenRaises(lib, office, AnyToPdfRoute(p.contentType), p.contentType, Staged(st, dir, p.file), dir, p.file.filename, outName);
    WorkspaceOneOutcome(ctx, st, p.file, convert, h, Answer(outName, "application/pdf", false));
  }

  /** With the intended check, a CSV, text or image upload that the library
      converts is answered with the PDF at `root/<uuid>/output_filename`, and
      the workspace is removed after sending. */
  lemma AnyToPdfServesLibraries(ctx: Ctx, st: St, lib: ConvLib, office: Office, p: Part, outName: string)
    requires Ready(ctx, st) && Fresh(ctx, st, 1) && IsOrdinary(p.file.filename)
    requires AnyToPdfRoute(p.contentType).ByLibrary()
    requires var dir := WorkDir(ctx, st.used);
             LibraryStep(lib, AnyToPdfRoute(p.contentType), Staged(st, dir, p.file), dir, p.file.filename, outName).r.Ok?
    ensures var r := AnyToPdf(Corrected, ctx, st, lib, office, p, outName);
            var dir := WorkDir(ctx, st.used);
            && r.status == 200 && r.body == FileBody(Join(dir, outName), outName, "application/pdf")
            && r.tasks == [RmTreeQuiet(dir)]
  {
    var dir := WorkDir(ctx, st.used);
    var route := AnyToPdfRoute(p.contentType);
    var convert := AnyConvert(Corrected, lib, office, route, p.contentType, p.file.filename, outName);
    var fs := Staged(st, dir, p.file);
    assert convert(fs, dir).r == Ok(Join(dir, outName)) by {
      LibraryCorrectedServes(lib, office, route, p.contentType, fs, dir, p.file.filename, outName);
    }
    JobServesPdf(ctx, st, p.file, convert, outName);
  }

  /** A workspace step that returns `root/<uuid>/output_filename` has
      `any_to_pdf` serve that PDF and queue the workspace's removal. */
  lemma JobServesPdf(ctx: Ctx, st: St, u: Upload, convert: Convert, outName: string)
    requires Ready(ctx, st) && Fresh(ctx, st, 1) && IsOrdinary(u.filename)
    requires var dir := WorkDir(ctx, st.used);
             convert(Staged(st, dir, u), dir).r == Ok(Join(dir, outName))
    ensures var r := WorkspaceJob(ctx, st, [u], convert, AnyToPdfHandling(), Answer(outName, "application/pdf", false));
            var dir := WorkDir(ctx, st.used);
            && r.status == 200 && r.body == FileBody(Join(dir, outName), outName, "application/pdf")
            && r.tasks == [RmTreeQuiet(dir)]
  {
    WorkspaceOneServed(ctx, st, u, convert, AnyToPdfHandling(), Answer(outName, "application/pdf", false));
  }

  /** A library branch that succeeds returns its output path, which then
      exists. */
  lemma LibraryStepWrites(lib: ConvLib, route: Route, fs: FS, dir: Path, filename: string, outName: string)
    requires route.ByLibrary()
    requires LibraryStep(lib, route, fs, dir, filename, outName).r.Ok?
    ensures var s := LibraryStep(lib, route, fs, dir, filename, outName);
            s.r.value == Join(dir, outName) && Exists(s.fs, s.r.value)
  {
  }

  /** As written, the check turns the helper's success into an
      `AttributeError`. */
  lemma LibraryAsWrittenRaises(lib: ConvLib, office: Office, route: Route, ct: string, fs: FS, dir: Path, filename: string, outName: string)
    requires route.ByLibrary()
    requires LibraryStep(lib, route, fs, dir, filename, outName).r.Ok?
    ensures AnyConvert(AsWritten, lib, office, route, ct, filename, outName)(fs, dir)
            == Step(LibraryStep(lib, route, fs, dir, filename, outName).fs, Err(Exc(AttributeError, NoExists())))
  {
    LibraryChecked(AsWritten, lib, office, route, ct, fs, dir, filename, outName);
  }

  /** As intended, the check lets the helper's output through. */
  lemma LibraryCorrectedServes(lib: ConvLib, office: Office, route: Route, ct: string, fs: FS, dir: Path, filename: string, outName: string)
    requires route.ByLibrary()
    requires LibraryStep(lib, route, fs, dir, filename, outName).r.Ok?
    ensures var s := LibraryStep(lib, route, fs, dir, filename, outName);
            AnyConvert(Corrected, lib, office, route, ct, filename, outName)(fs, dir) == Step(s.fs, Ok(Join(dir, outName)))
  {
    LibraryChecked(Corrected, lib, office, route, ct, fs, dir, filename, outName);
    LibraryStepWrites(lib, route, fs, dir, filename, outName);
  }

  /** `any_to_pdf` stages before it dispatches: an unsupported type is a 400
      that leaves the workspace, with the staged upload in it, behind (what
      `Staged` holds is stated by `WorkspaceOne`). */
  lemma AnyToPdfStagesFirst(check: Check, ctx: Ctx, st: St, lib: ConvLib, office: Office, p: Part, outName: string)
    requires Ready(ctx, st) && Fresh(ctx, st, 1) && IsOrdinary(p.file.filename)
    requires AnyToPdfRoute(p.contentType) == Unsupported
    ensures var r := AnyToPdf(check, ctx, st, lib, office, p, outName);
            var dir := WorkDir(ctx, st.used);
            r == Reject(400, UnsupportedType(p.contentType), St(Staged(st, dir, p.file), st.used + 1))
  {
    var dir := WorkDir(ctx, st.used);
    var convert := AnyConvert(check, lib, office, AnyToPdfRoute(p.contentType), p.contentType, p.file.filename, outName);
    UnsupportedStep(check, lib, office, AnyToPdfRoute(p.contentType), p.contentType, Staged(st, dir, p.file), dir, p.file.filename, outName);
    WorkspaceOneRefused(ctx, st, p.file, convert, AnyToPdfHandling(), Answer(outName, "application/pdf", false),
                        400, UnsupportedType(p.contentType));
  }

  /** An unsupported type is refused in the workspace, which is left as it is. */
  lemma UnsupportedStep(check: Check, lib: ConvLib, office: Office, route: Route, ct: string, fs: FS, dir: Path, filename: string, outName: string)
    requires route == Unsupported
    ensures AnyConvert(check, lib, office, route, ct, filename, outName)(fs, dir) == Step(fs, Err(HttpException(400, UnsupportedType(ct))))
  {
    assert AnyConvert(check, lib, office, route, ct, filename, outName)(fs, dir) == AnyToPdfSteps(check, lib, office, route, ct, fs, dir, filename, outName);
  }

  /** A CSV, text or image upload goes to its library helper, whose result is
      then checked. */
  lemma LibraryChecked(check: Check, lib: ConvLib, office: Office, route: Route, ct: string, fs: FS, dir: Path, filename: string, outName: string)
    requires route.ByLibrary()
    ensures AnyConvert(check, lib, office, route, ct, filename, outName)(fs, dir)
            == CheckOutput(check, true, LibraryStep(lib, route, fs, dir, filename, outName))
  {
    assert AnyConvert(check, lib, office, route, ct, filename, outName)(fs, dir) == AnyToPdfSteps(check, lib, office, route, ct, fs, dir, filename, outName);
  }

  /** The detail of the 500 `any_to_pdf` answers as written. */
  lemma AsWrittenDetail()
    ensures Wrapped(AnyToPdfHandling(), NoExists()) == "Conversion to PDF failed: 'str' object has no attribute 'exists'"
  {
  }
}
