/** The endpoints of `app/routers/pdf/basic_tools.py`, the router mounted first
    under `/api/pdf`: merge, split, redact, scrub-metadata, fill-form and the
    temporary-file download. Each endpoint is a step function from the state
    and the request to a `Response`. */
module PdfBasicTools {
  import opened Wrappers
  import opened Errors
  import opened PyStr
  import opened PyPath
  import opened FileSystem
  import opened TempStorage
  import opened JsonValue
  import opened Archive
  import opened PdfHandler
  import opened Jobs

  // ---------------------------------------------------------------- merge

  /** What the staging loop left: the state, the uploads staged so far, and the
      exception that stopped it, if any. */
  datatype Staged = Staged(st: St, paths: seq<Path>, err: Option<Exc>)

  /** The loop of `merge_pdf_files`: each upload's name is checked, then the
      upload is saved; the first failure stops the loop with the earlier
      uploads already staged. */
  function StageAll(ctx: Ctx, st: St, ups: seq<Upload>): (s: Staged)
    ensures |s.paths| <= |ups|
    ensures s.err.None? <==> |s.paths| == |ups|
    ensures s.err.Some? ==> s.err.value.Exc? || s.err.value.status == 400
    decreases |ups|
  {
    if |ups| == 0 then Staged(st, [], None)
    else if !IsPdfName(ups[0].filename) then Staged(st, [], Some(HttpException(400, NotAPdf(ups[0].filename))))
    else
      var o := SaveTempFile(ctx, st, ups[0]);
      match o.r
      case Err(e) => Staged(o.st, [], Some(e))
      case Ok(p) =>
        var rest := StageAll(ctx, o.st, ups[1..]);
        Staged(rest.st, [p] + rest.paths, rest.err)
  }

  /** Every staged upload had a PDF name and sits two levels below the root. */
  lemma {:induction false} StageAllShape(ctx: Ctx, st: St, ups: seq<Upload>)
    ensures var s := StageAll(ctx, st, ups);
            forall i :: 0 <= i < |s.paths| ==>
              IsPdfName(ups[i].filename) && Within(s.paths[i], ctx.root) && |s.paths[i]| == |ctx.root| + 2
    decreases |ups|
  {
    if |ups| > 0 && IsPdfName(ups[0].filename) {
      var o := SaveTempFile(ctx, st, ups[0]);
      StageAllStep(ctx, st, ups);
      if o.r.Ok? {
        StageAllShape(ctx, o.st, ups[1..]);
        var rest := StageAll(ctx, o.st, ups[1..]);
        var s := StageAll(ctx, st, ups);
        forall i | 0 <= i < |s.paths|
          ensures IsPdfName(ups[i].filename) && Within(s.paths[i], ctx.root) && |s.paths[i]| == |ctx.root| + 2
        {
          if i > 0 {
            assert s.paths[i] == rest.paths[i - 1];
            assert ups[i] == ups[1..][i - 1];
          }
        }
      }
    }
  }

  /** A loop stopped by a name check stopped at the first upload after the
      staged ones, with that upload's 400. */
  lemma {:induction false} StageAllStops(ctx: Ctx, st: St, ups: seq<Upload>)
    ensures var s := StageAll(ctx, st, ups);
            s.err.Some? && !IsPdfName(ups[|s.paths|].filename) ==>
              s.err.value == HttpException(400, NotAPdf(ups[|s.paths|].filename))
    decreases |ups|
  {
    if |ups| > 0 && IsPdfName(ups[0].filename) {
      var o := SaveTempFile(ctx, st, ups[0]);
      StageAllStep(ctx, st, ups);
      if o.r.Ok? {
        StageAllStops(ctx, o.st, ups[1..]);
        var rest := StageAll(ctx, o.st, ups[1..]);
        if rest.err.Some? {
          assert ups[1..][|rest.paths|] == ups[|rest.paths| + 1];
        }
      }
    }
  }

  /** One step of the staging loop past a PDF name. */
  lemma StageAllStep(ctx: Ctx, st: St, ups: seq<Upload>)
    requires |ups| > 0 && IsPdfName(ups[0].filename)
    ensures var o := SaveTempFile(ctx, st, ups[0]);
            var s := StageAll(ctx, st, ups);
            && (o.r.Err? ==> s.paths == [])
            && (o.r.Ok? ==> var rest := StageAll(ctx, o.st, ups[1..]);
                             s.paths == [o.r.value] + rest.paths && s.err == rest.err)
  {
  }

  /** With fresh uuids and PDF names only, every upload is staged: each at a
      new path holding exactly its bytes, nothing already present is touched,
      and two uuids are drawn per upload. */
  lemma {:induction false} StageAllSpec(ctx: Ctx, st: St, ups: seq<Upload>)
    requires Ready(ctx, st) && Fresh(ctx, st, 2 * |ups|)
    requires forall i :: 0 <= i < |ups| ==> IsPdfName(ups[i].filename)
    ensures var s := StageAll(ctx, st, ups);
            && s.err.None? && Ready(ctx, s.st) && s.st.used == st.used + 2 * |ups|
            && Sub(st.fs, s.st.fs)
            && forall i :: 0 <= i < |ups| ==> s.paths[i] in s.st.fs && s.st.fs[s.paths[i]] == File(ups[i].content)
    decreases |ups|
  {
    if |ups| > 0 {
      StageFirst(ctx, st, ups);
      var o := SaveTempFile(ctx, st, ups[0]);
      StageAllSpec(ctx, o.st, ups[1..]);
      var rest := StageAll(ctx, o.st, ups[1..]);
      var s := StageAll(ctx, st, ups);
      SubTrans(st.fs, o.st.fs, s.st.fs);
      forall i | 0 <= i < |ups|
        ensures s.paths[i] in s.st.fs && s.st.fs[s.paths[i]] == File(ups[i].content)
      {
        if i > 0 {
          assert s.paths[i] == rest.paths[i - 1];
          assert ups[i] == ups[1..][i - 1];
        }
      }
    }
  }

  /** One step of the staging loop on fresh uuids: the first upload is saved
      at a new path holding its bytes and the loop goes on with the rest. */
  lemma StageFirst(ctx: Ctx, st: St, ups: seq<Upload>)
    requires |ups| > 0 && Ready(ctx, st) && Fresh(ctx, st, 2 * |ups|)
    requires IsPdfName(ups[0].filename)
    ensures var o := SaveTempFile(ctx, st, ups[0]);
            && o.r.Ok? && Ready(ctx, o.st) && Fresh(ctx, o.st, 2 * (|ups| - 1))
            && o.st.used == st.used + 2
            && Sub(st.fs, o.st.fs)
            && o.r.value in o.st.fs && o.st.fs[o.r.value] == File(ups[0].content)
            && var rest := StageAll(ctx, o.st, ups[1..]);
            StageAll(ctx, st, ups) == Staged(rest.st, [o.r.value] + rest.paths, rest.err)
  {
    SaveTempFileSpec(ctx, st, ups[0]);
    FreshAfterSave(ctx, st, ups[0], 2 * (|ups| - 1));
  }

  /** `f"{Path(output_filename).stem}_{uuid.uuid4()}{Path(output_filename).suffix}"`
      under the root, drawn before the `try`. */
  function MergeOutput(ctx: Ctx, st: St, outputFilename: string): Path
  {
    JoinOrdinaryWithin(ctx.root, UniqueName(ctx.uuid(st.used), outputFilename));
    Join(ctx.root, UniqueName(ctx.uuid(st.used), outputFilename))
  }

  function MergeFailedPrefix(): string
  {
    "Failed to merge PDFs: "
  }

  /** `POST /api/pdf/merge`. */
  function MergePdfFiles(ctx: Ctx, st: St, lib: PdfLib, ups: seq<Upload>, outputFilename: string): Response
  {
    if |ups| == 0 then Reject(400, "No files provided for merging.", st)
    else if |ups| < 2 then Reject(400, "Please upload at least two PDF files to merge.", st)
    else MergeStaged(ctx, lib, StageAll(ctx, St(st.fs, st.used + 1), ups), MergeOutput(ctx, st, outputFilename), outputFilename)
  }

  /** The rest of the `try` block once the staging loop has ended, and the
      `finally` loop over the staged inputs. */
  function MergeStaged(ctx: Ctx, lib: PdfLib, s: Staged, out: RawPath, outputFilename: string): Response
  {
    match s.err
    case Some(e) => Failure(e, MergeFailedPrefix(), St(RunTasks(ctx, s.st.fs, CleanTasks(s.paths)), s.st.used))
    case None =>
      var m := MergePdfs(lib, s.st.fs, s.paths, out);
      var st' := St(RunTasks(ctx, m.fs, CleanTasks(s.paths)), s.st.used);
      match m.r
      case Err(e) => Failure(e, MergeFailedPrefix(), st')
      case Ok(final) =>
        Response(200, FileBody(final, outputFilename, "application/pdf"), st', [CleanFile(final)] + CleanTasks(s.paths))
  }

  /** Fewer than two uploads are refused with 400 before anything is staged:
      the state is unchanged and nothing is queued. */
  lemma MergeNeedsTwo(ctx: Ctx, st: St, lib: PdfLib, ups: seq<Upload>, outputFilename: string)
    requires |ups| < 2
    ensures var r := MergePdfFiles(ctx, st, lib, ups, outputFilename);
            && r.status == 400 && r.st == st && r.tasks == []
            && r.body == Detail(if |ups| == 0 then "No files provided for merging."
                                else "Please upload at least two PDF files to merge.")
  {
  }

  /** Past the count check the endpoint is the staging loop followed by the
      rest of the `try` block. */
  lemma MergeUnfolds(ctx: Ctx, st: St, lib: PdfLib, ups: seq<Upload>, outputFilename: string)
    requires |ups| >= 2
    ensures MergePdfFiles(ctx, st, lib, ups, outputFilename)
            == MergeStaged(ctx, lib, StageAll(ctx, St(st.fs, st.used + 1), ups), MergeOutput(ctx, st, outputFilename), outputFilename)
  {
  }

  predicate AllNonEmpty(ps: seq<Path>)
  {
    forall i :: 0 <= i < |ps| ==> |ps[i]| > 0
  }

  /** Every staged path is a non-empty path. */
  lemma StagedNonEmpty(ctx: Ctx, st: St, ups: seq<Upload>)
    ensures AllNonEmpty(StageAll(ctx, st, ups).paths)
  {
    StageAllShape(ctx, st, ups);
  }

  /** Once past the count check, every upload that was staged is gone when
      the response is sent, whichever way the request ended: the `finally`
      loop cleans each up. */
  lemma MergeCleansStaged(ctx: Ctx, st: St, lib: PdfLib, ups: seq<Upload>, outputFilename: string)
    requires |ups| >= 2
    ensures var s := StageAll(ctx, St(st.fs, st.used + 1), ups);
            var r := MergePdfFiles(ctx, st, lib, ups, outputFilename);
            forall i :: 0 <= i < |s.paths| ==> !Exists(r.st.fs, s.paths[i])
  {
    MergeUnfolds(ctx, st, lib, ups, outputFilename);
    StagedNonEmpty(ctx, St(st.fs, st.used + 1), ups);
    MergeStagedCleans(ctx, lib, StageAll(ctx, St(st.fs, st.used + 1), ups), MergeOutput(ctx, st, outputFilename), outputFilename);
  }

  /** A name that is not a PDF stops staging at that upload with 400, after
      the earlier uploads were staged. */
  lemma MergeStopsOnNonPdf(ctx: Ctx, st: St, lib: PdfLib, ups: seq<Upload>, outputFilename: string)
    requires |ups| >= 2
    ensures var s := StageAll(ctx, St(st.fs, st.used + 1), ups);
            var r := MergePdfFiles(ctx, st, lib, ups, outputFilename);
            s.err.Some? && !IsPdfName(ups[|s.paths|].filename) ==>
              r.status == 400 && r.body == Detail(NotAPdf(ups[|s.paths|].filename))
  {
    MergeUnfolds(ctx, st, lib, ups, outputFilename);
    StageAllStops(ctx, St(st.fs, st.used + 1), ups);
  }

  /** The `finally` loop removes every staged input, whatever the loop or the
      merge raised. */
  lemma MergeStagedCleans(ctx: Ctx, lib: PdfLib, s: Staged, out: RawPath, outputFilename: string)
    requires AllNonEmpty(s.paths)
    ensures forall i :: 0 <= i < |s.paths| ==> !Exists(MergeStaged(ctx, lib, s, out, outputFilename).st.fs, s.paths[i])
  {
    if s.err.Some? {
      CleanupsRemoveStaged(ctx, s.st.fs, s.paths);
    } else {
      CleanupsRemoveStaged(ctx, MergePdfs(lib, s.st.fs, s.paths, out).fs, s.paths);
    }
  }

  /** A successful merge answers with `{stem}_{uuid}{suffix}` directly under
      the root, advertised as `output_filename`, and queues the output and
      then each input for removal; running that queue removes them all. */
  lemma MergeSuccess(ctx: Ctx, st: St, lib: PdfLib, ups: seq<Upload>, outputFilename: string)
    requires MergePdfFiles(ctx, st, lib, ups, outputFilename).status == 200
    ensures var r := MergePdfFiles(ctx, st, lib, ups, outputFilename);
            var s := StageAll(ctx, St(st.fs, st.used + 1), ups);
            var out := ctx.root + [UniqueName(ctx.uuid(st.used), outputFilename)];
            && |ups| >= 2 && s.err.None?
            && r.body == FileBody(out, outputFilename, "application/pdf")
            && r.tasks == [CleanFile(out)] + CleanTasks(s.paths)
            && !Exists(RunTasks(ctx, r.st.fs, r.tasks), out)
            && forall i :: 0 <= i < |ups| ==> !Exists(RunTasks(ctx, r.st.fs, r.tasks), s.paths[i])
  {
    var r := MergePdfFiles(ctx, st, lib, ups, outputFilename);
    assert |ups| >= 2 by {
      if |ups| < 2 {
        MergeNeedsTwo(ctx, st, lib, ups, outputFilename);
        assert false;
      }
    }
    var s := StageAll(ctx, St(st.fs, st.used + 1), ups);
    var out := MergeOutput(ctx, st, outputFilename);
    JoinOrdinaryWithin(ctx.root, UniqueName(ctx.uuid(st.used), outputFilename));
    assert out == ctx.root + [UniqueName(ctx.uuid(st.used), outputFilename)];
    MergeUnfolds(ctx, st, lib, ups, outputFilename);
    assert r == MergeStaged(ctx, lib, s, out, outputFilename);
    StagedNonEmpty(ctx, St(st.fs, st.used + 1), ups);
    MergeStagedSuccess(ctx, lib, s, out, outputFilename);
  }

  lemma MergeStagedSuccess(ctx: Ctx, lib: PdfLib, s: Staged, out: Path, outputFilename: string)
    requires |out| > 0 && AllNonEmpty(s.paths)
    requires s.err.Some? ==> s.err.value.Exc? || s.err.value.status == 400
    requires MergeStaged(ctx, lib, s, out, outputFilename).status == 200
    ensures var r := MergeStaged(ctx, lib, s, out, outputFilename);
            && s.err.None?
            && r.body == FileBody(out, outputFilename, "application/pdf")
            && r.tasks == [CleanFile(out)] + CleanTasks(s.paths)
            && !Exists(RunTasks(ctx, r.st.fs, r.tasks), out)
            && forall i :: 0 <= i < |s.paths| ==> !Exists(RunTasks(ctx, r.st.fs, r.tasks), s.paths[i])
  {
    var r := MergeStaged(ctx, lib, s, out, outputFilename);
    var fs1 := RunTasks(ctx, r.st.fs, [CleanFile(out)]);
    RunTasksAppend(ctx, r.st.fs, [CleanFile(out)], CleanTasks(s.paths));
    WalkOfPath(r.st.fs, out);
    TasksRemoveTargets(ctx, r.st.fs, [CleanFile(out)]);
    CleanupsRemoveStaged(ctx, fs1, s.paths);
    ExistsInSub(RunTasks(ctx, r.st.fs, r.tasks), fs1, out);
  }

  /** With fresh uuids and PDF names, the merge reads the uploads' bytes: when
      each upload parses, the merged file holds their pages in upload order. */
  lemma MergeOfUploads(ctx: Ctx, st: St, lib: PdfLib, ups: seq<Upload>, outputFilename: string, docs: seq<PdfDoc>)
    requires SavesFaithfully(lib)
    requires |ups| >= 2 && Ready(ctx, St(st.fs, st.used + 1)) && Fresh(ctx, St(st.fs, st.used + 1), 2 * |ups|)
    requires forall i :: 0 <= i < |ups| ==> IsPdfName(ups[i].filename)
    requires |docs| == |ups| && forall i :: 0 <= i < |ups| ==> lib.read(ups[i].content) == Ok(docs[i])
    ensures var s := StageAll(ctx, St(st.fs, st.used + 1), ups);
            var out := MergeOutput(ctx, st, outputFilename);
            var m := MergePdfs(lib, s.st.fs, s.paths, out);
            && s.err.None?
            && (MergePdfFiles(ctx, st, lib, ups, outputFilename).status == 200 <==> m.r.Ok?)
            && (m.r.Ok? ==> Read(m.fs, out).Ok?
                            && lib.read(Read(m.fs, out).value) == Ok(PdfDoc(ConcatPages(docs), lib.writerInfo)))
  {
    var st0 := St(st.fs, st.used + 1);
    StageAllSpec(ctx, st0, ups);
    var s := StageAll(ctx, st0, ups);
    forall i | 0 <= i < |ups|
      ensures Exists(s.st.fs, s.paths[i]) && Open(lib, s.st.fs, s.paths[i]) == Ok(docs[i])
    {
      ReadNormal(s.st.fs, s.paths[i]);
      WalkOfNormal(s.st.fs, s.paths[i]);
    }
    var out := MergeOutput(ctx, st, outputFilename);
    var m := MergePdfs(lib, s.st.fs, s.paths, out);
    if m.r.Ok? {
      MergeReadsBack(lib, s.st.fs, s.paths, docs, out);
    }
    MergeUnfolds(ctx, st, lib, ups, outputFilename);
    MergeStagedStatus(ctx, lib, s, out, outputFilename);
  }

  /** With every upload staged, the endpoint answers 200 exactly when the
      merge succeeds. */
  lemma MergeStagedStatus(ctx: Ctx, lib: PdfLib, s: Staged, out: RawPath, outputFilename: string)
    requires s.err.None?
    ensures MergeStaged(ctx, lib, s, out, outputFilename).status == 200 <==> MergePdfs(lib, s.st.fs, s.paths, out).r.Ok?
  {
  }

  // ---------------------------------------------------------------- split

  /** `Form(None)` or an empty string: both are falsy for `split_pdf`. */
  function OrEmpty(pages: Option<string>): string
  {
    if pages.Some? then pages.value else ""
  }

  /** `f"{Path(file.filename).stem}_split.zip"`. */
  function ZipName(filename: string): Name
  {
    var stem := Stem(NameOf(Components(filename)));
    StemSuffix(NameOf(Components(filename)));
    assert '/' !in stem by {
      assert forall k :: 0 <= k < |stem| ==> stem[k] == NameOf(Components(filename))[k];
    }
    var z := stem + "_split.zip";
    assert z[|stem|] == '_';
    z
  }

  /** The entries `ZipFile.write(p, arcname=p.name)` adds: each file read in
      order, the first one missing raising. */
  function ReadEntries(fs: FS, files: seq<RawPath>): (r: Result<Zip, Exc>)
    ensures r.Ok? ==> |r.value| == |files|
                      && forall i :: 0 <= i < |files| ==>
                           IsFile(fs, files[i]) && r.value[i] == Entry(NameOf(files[i]), Read(fs, files[i]).value)
    ensures r.Err? <==> exists i :: 0 <= i < |files| && !IsFile(fs, files[i])
    ensures r.Err? ==> IsOSError(r.error)
  {
    if |files| == 0 then Ok([])
    else
      match Read(fs, files[0])
      case Err(e) => Err(e)
      case Ok(data) =>
        match ReadEntries(fs, files[1..])
        case Err(e) =>
          var i :| 0 <= i < |files[1..]| && !IsFile(fs, files[1..][i]);
          assert !IsFile(fs, files[i + 1]);
          Err(e)
        case Ok(rest) =>
          assert forall i :: 1 <= i < |files| ==> files[i] == files[1..][i - 1];
          Ok([Entry(NameOf(files[0]), data)] + rest)
  }

  /** `with ZipFile(zip_path, 'w')`: the archive file is created, then filled
      from the inputs as they are after its creation; a missing input leaves
      the empty archive behind. */
  function WriteZip(zlib: ZipLib, fs: FS, files: seq<RawPath>, out: RawPath): (s: Step<RawPath>)
    ensures s.r.Ok? ==> s.r.value == out
    ensures s.r.Err? ==> IsOSError(s.r.error)
    ensures s.r.Ok? ==>
              && WriteFile(fs, out, zlib.serialize([])).Ok?
              && var fs1 := WriteFile(fs, out, zlib.serialize([])).value;
              && ReadEntries(fs1, files).Ok?
              && Read(s.fs, out) == Ok(zlib.serialize(ReadEntries(fs1, files).value))
  {
    match WriteFile(fs, out, zlib.serialize([]))
    case Err(e) => Step(fs, Err(e))
    case Ok(fs1) =>
      match ReadEntries(fs1, files)
      case Err(e) => Step(fs1, Err(e))
      case Ok(z) =>
        match WriteFile(fs1, out, zlib.serialize(z))
        case Err(e) => Step(fs1, Err(e))
        case Ok(fs2) =>
          ReadAfterWrite(fs1, out, zlib.serialize(z));
          Step(fs2, Ok(out))
  }

  function SplitEmpty(): Exc
  {
    HttpException(500, "Failed to split PDF or no pages matched.")
  }

  /** The `try` block of `split_pdf_file`: split into the directory, refuse an
      empty result, zip the parts into `dir / zip_filename`. Yields the parts. */
  function SplitBody(lib: PdfLib, zlib: ZipLib, fs: FS, input: RawPath, dir: Path, filename: string,
                     pages: Option<string>, prefix: string): (s: Step<seq<RawPath>>)
    ensures s.r.Ok? ==> |s.r.value| > 0 && SplitPdf(lib, fs, input, dir, OrEmpty(pages), prefix).r == s.r
    ensures s.r.Err? ==> s.r.error.Exc? || s.r.error == SplitEmpty()
  {
    var sp := SplitPdf(lib, fs, input, dir, OrEmpty(pages), prefix);
    match sp.r
    case Err(e) => Step(sp.fs, Err(e))
    case Ok(parts) =>
      if |parts| == 0 then Step(sp.fs, Err(SplitEmpty()))
      else
        var z := WriteZip(zlib, sp.fs, parts, dir + [ZipName(filename)]);
        match z.r
        case Err(e) => Step(z.fs, Err(e))
        case Ok(_) => Step(z.fs, Ok(parts))
  }

  /** After a successful `try` block the archive `dir / {stem}_split.zip`
      holds one entry per part, in part order, each named by the part's base
      name. */
  lemma SplitArchive(lib: PdfLib, zlib: ZipLib, fs: FS, input: RawPath, dir: Path, filename: string,
                     pages: Option<string>, prefix: string)
    requires SplitBody(lib, zlib, fs, input, dir, filename, pages, prefix).r.Ok?
    ensures var t := SplitBody(lib, zlib, fs, input, dir, filename, pages, prefix);
            var parts := t.r.value;
            exists z: Zip ::
              && Read(t.fs, dir + [ZipName(filename)]) == Ok(zlib.serialize(z))
              && |z| == |parts|
              && forall i :: 0 <= i < |parts| ==> z[i].name == NameOf(parts[i])
  {
    var sp := SplitPdf(lib, fs, input, dir, OrEmpty(pages), prefix);
    var parts := sp.r.value;
    var out := dir + [ZipName(filename)];
    var fs1 := WriteFile(sp.fs, out, zlib.serialize([])).value;
    var z := ReadEntries(fs1, parts).value;
    assert Read(SplitBody(lib, zlib, fs, input, dir, filename, pages, prefix).fs, out) == Ok(zlib.serialize(z));
  }

  /** `POST /api/pdf/split`. The upload is staged and the job directory made
      (`tempfile.mkdtemp(dir=TEMP_DIR)`) before the `try`. */
  function SplitPdfFile(ctx: Ctx, st: St, lib: PdfLib, zlib: ZipLib, up: Upload, pages: Option<string>, prefix: string): Response
  {
    if !IsPdfName(up.filename) then Reject(400, NotAPdf(up.filename), st)
    else
      var s := SaveTempFile(ctx, st, up);
      match s.r
      case Err(_) => Unhandled(s.st)
      case Ok(input) =>
        var o := NewDir(ctx, s.st);
        match o.r
        case Err(_) => Unhandled(o.st)
        case Ok(dir) => SplitStaged(ctx, o.st, lib, zlib, input, dir, up.filename, pages, prefix)
  }

  /** The `try`/`except`/`finally` of `split_pdf_file` once the input is
      staged and the job directory made. */
  function SplitStaged(ctx: Ctx, st: St, lib: PdfLib, zlib: ZipLib, input: Path, dir: Path, filename: string,
                       pages: Option<string>, prefix: string): Response
  {
    var t := SplitBody(lib, zlib, st.fs, input, dir, filename, pages, prefix);
    var st' := St(CleanupTempFile(ctx, t.fs, input), st.used);
    match t.r
    case Err(e) => Failure(e, "Failed to split PDF: ", st')
    case Ok(parts) =>
      Response(200, FileBody(dir + [ZipName(filename)], ZipName(filename), "application/zip"), st',
               [CleanFile(input)] + CleanTasks(parts) + [CleanFiles(dir)])
  }

  /** Once the input is staged and the directory made, the endpoint is the
      `try` block. */
  lemma SplitUnfolds(ctx: Ctx, st: St, lib: PdfLib, zlib: ZipLib, up: Upload, pages: Option<string>, prefix: string)
    requires IsPdfName(up.filename)
    requires SaveTempFile(ctx, st, up).r.Ok? && NewDir(ctx, SaveTempFile(ctx, st, up).st).r.Ok?
    ensures var s := SaveTempFile(ctx, st, up);
            var o := NewDir(ctx, s.st);
            SplitPdfFile(ctx, st, lib, zlib, up, pages, prefix)
            == SplitStaged(ctx, o.st, lib, zlib, s.r.value, o.r.value, up.filename, pages, prefix)
  {
  }

  /** A splitter that yields nothing gives 500 with the dedicated message, and
      the staged input is removed all the same. */
  lemma SplitNothingIs500(ctx: Ctx, st: St, lib: PdfLib, zlib: ZipLib, up: Upload, pages: Option<string>, prefix: string)
    requires IsPdfName(up.filename)
    requires SaveTempFile(ctx, st, up).r.Ok?
    requires var s := SaveTempFile(ctx, st, up);
             var o := NewDir(ctx, s.st);
             o.r.Ok? && SplitPdf(lib, o.st.fs, s.r.value, o.r.value, OrEmpty(pages), prefix).r == Ok([])
    ensures var r := SplitPdfFile(ctx, st, lib, zlib, up, pages, prefix);
            && r.status == 500 && r.body == Detail("Failed to split PDF or no pages matched.")
            && !Exists(r.st.fs, SaveTempFile(ctx, st, up).r.value)
  {
    var s := SaveTempFile(ctx, st, up);
    var o := NewDir(ctx, s.st);
    SplitUnfolds(ctx, st, lib, zlib, up, pages, prefix);
    var t := SplitBody(lib, zlib, o.st.fs, s.r.value, o.r.value, up.filename, pages, prefix);
    CleanupRemovesStaged(ctx, t.fs, s.r.value);
  }

  /** The staged input is gone on every exit from the `try` block. */
  lemma SplitCleansInput(ctx: Ctx, st: St, lib: PdfLib, zlib: ZipLib, up: Upload, pages: Option<string>, prefix: string)
    requires IsPdfName(up.filename)
    requires SaveTempFile(ctx, st, up).r.Ok? && NewDir(ctx, SaveTempFile(ctx, st, up).st).r.Ok?
    ensures !Exists(SplitPdfFile(ctx, st, lib, zlib, up, pages, prefix).st.fs, SaveTempFile(ctx, st, up).r.value)
  {
    var s := SaveTempFile(ctx, st, up);
    var o := NewDir(ctx, s.st);
    SplitUnfolds(ctx, st, lib, zlib, up, pages, prefix);
    var t := SplitBody(lib, zlib, o.st.fs, s.r.value, o.r.value, up.filename, pages, prefix);
    CleanupRemovesStaged(ctx, t.fs, s.r.value);
  }

  /** A successful `try` block answers with the archive and queues the input,
      each part and then the job directory; running the queue removes the
      input and the whole directory. */
  lemma SplitStagedSuccess(ctx: Ctx, st: St, lib: PdfLib, zlib: ZipLib, input: Path, dir: Path, filename: string,
                           pages: Option<string>, prefix: string)
    requires |input| > 0 && |dir| > 0
    requires SplitStaged(ctx, st, lib, zlib, input, dir, filename, pages, prefix).status == 200
    ensures var r := SplitStaged(ctx, st, lib, zlib, input, dir, filename, pages, prefix);
            var t := SplitBody(lib, zlib, st.fs, input, dir, filename, pages, prefix);
            && t.r.Ok?
            && r.body == FileBody(dir + [ZipName(filename)], ZipName(filename), "application/zip")
            && r.tasks == [CleanFile(input)] + CleanTasks(t.r.value) + [CleanFiles(dir)]
            && !Exists(RunTasks(ctx, r.st.fs, r.tasks), input)
            && !Exists(RunTasks(ctx, r.st.fs, r.tasks), dir)
  {
    var t := SplitBody(lib, zlib, st.fs, input, dir, filename, pages, prefix);
    CleanupRemovesStaged(ctx, t.fs, input);
    CleanAround(ctx, CleanupTempFile(ctx, t.fs, input), input, CleanTasks(t.r.value), dir);
  }

  /** Running `[CleanFile(input)] + middle + [CleanFiles(dir)]` on a file
      system that no longer holds `input` leaves neither `input` nor `dir`. */
  lemma CleanAround(ctx: Ctx, fs: FS, input: Path, middle: seq<Task>, dir: Path)
    requires |dir| > 0 && !Exists(fs, input)
    ensures var fin := RunTasks(ctx, fs, [CleanFile(input)] + middle + [CleanFiles(dir)]);
            !Exists(fin, input) && !Exists(fin, dir)
  {
    var head := [CleanFile(input)] + middle;
    RunTasksAppend(ctx, fs, head, [CleanFiles(dir)]);
    var fs1 := RunTasks(ctx, fs, head);
    TasksShrink(ctx, fs, head);
    ExistsInSub(fs1, fs, input);
    WalkOfPath(fs1, dir);
    TasksRemoveTargets(ctx, fs1, [CleanFiles(dir)]);
    var fin := RunTasks(ctx, fs, head + [CleanFiles(dir)]);
    TasksShrink(ctx, fs1, [CleanFiles(dir)]);
    ExistsInSub(fin, fs1, input);
  }

  /** A successful split staged the upload and made the job directory; its
      answer is `{stem}_split.zip` inside that directory, and running the
      queued tasks removes the input and the whole job directory. */
  lemma SplitSuccess(ctx: Ctx, st: St, lib: PdfLib, zlib: ZipLib, up: Upload, pages: Option<string>, prefix: string)
    requires SplitPdfFile(ctx, st, lib, zlib, up, pages, prefix).status == 200
    ensures var r := SplitPdfFile(ctx, st, lib, zlib, up, pages, prefix);
            var s := SaveTempFile(ctx, st, up);
            var o := NewDir(ctx, s.st);
            && IsPdfName(up.filename) && s.r.Ok? && o.r.Ok?
            && r.body == FileBody(o.r.value + [ZipName(up.filename)], ZipName(up.filename), "application/zip")
            && !Exists(RunTasks(ctx, r.st.fs, r.tasks), s.r.value)
            && !Exists(RunTasks(ctx, r.st.fs, r.tasks), o.r.value)
  {
    var s := SaveTempFile(ctx, st, up);
    var o := NewDir(ctx, s.st);
    assert IsPdfName(up.filename) && s.r.Ok? && o.r.Ok?;
    SplitUnfolds(ctx, st, lib, zlib, up, pages, prefix);
    SplitStagedSuccess(ctx, o.st, lib, zlib, s.r.value, o.r.value, up.filename, pages, prefix);
  }

  // ---------------------------------------------------------------- redact, scrub, fill

  /** `json.loads(terms_to_redact_json)` and the `isinstance(..., list)` check;
      the elements are not inspected. */
  function TermsList(parse: JsonParser, text: string): (r: Result<seq<Json>, Exc>)
    ensures r.Ok? <==> parse(text).Some? && IsList(parse(text).value)
    ensures r.Ok? ==> r.value == parse(text).value.items
    ensures r.Err? ==> r.error.HttpException? && r.error.status == 400
  {
    match parse(text)
    case None => Err(HttpException(400, "Invalid JSON format for terms_to_redact."))
    case Some(v) =>
      if v.JArr? then Ok(v.items) else Err(HttpException(400, "Terms to redact must be a JSON array."))
  }

  /** `json.loads(form_data_json)` and the `isinstance(..., dict)` check. */
  function FormObject(parse: JsonParser, text: string): (r: Result<map<string, Json>, Exc>)
    ensures r.Ok? <==> parse(text).Some? && IsObject(parse(text).value)
    ensures r.Ok? ==> r.value == parse(text).value.fields
    ensures r.Err? ==> r.error.HttpException? && r.error.status == 400
  {
    match parse(text)
    case None => Err(HttpException(400, "Invalid JSON format for form_data."))
    case Some(v) =>
      if v.JObj? then Ok(v.fields) else Err(HttpException(400, "Form data must be a JSON object."))
  }

  /** `POST /api/pdf/redact`. */
  function RedactPdfFile(ctx: Ctx, st: St, lib: PdfLib, parse: JsonParser, up: Upload, termsJson: string,
                         outputFilename: string): Response
  {
    if !IsPdfName(up.filename) then Reject(400, NotAPdf(up.filename), st)
    else
      match TermsList(parse, termsJson)
      case Err(e) => Failure(e, "", st)
      case Ok(terms) =>
        SingleFileJob(ctx, st, up, UnderRoot, outputFilename,
                      (s: St, i: Path, o: RawPath) => Lift(s, RedactPdf(lib, s.fs, i, o, terms)),
                      "Failed to redact PDF: ", "application/pdf")
  }

  /** `POST /api/pdf/scrub-metadata`. */
  function ScrubMetadataFile(ctx: Ctx, st: St, lib: PdfLib, up: Upload, outputFilename: string): Response
  {
    if !IsPdfName(up.filename) then Reject(400, NotAPdf(up.filename), st)
    else
      SingleFileJob(ctx, st, up, UnderRoot, outputFilename,
                    (s: St, i: Path, o: RawPath) => Lift(s, ScrubPdfMetadata(lib, s.fs, i, o)),
                    "Failed to scrub metadata: ", "application/pdf")
  }

  /** `POST /api/pdf/fill-form`; `flatten_form` defaults to true. */
  function FillPdfFormFile(ctx: Ctx, st: St, lib: PdfLib, parse: JsonParser, up: Upload, formJson: string,
                           flatten: bool, outputFilename: string): Response
  {
    if !IsPdfName(up.filename) then Reject(400, NotAPdf(up.filename), st)
    else
      match FormObject(parse, formJson)
      case Err(e) => Failure(e, "", st)
      case Ok(form) =>
        SingleFileJob(ctx, st, up, UnderRoot, outputFilename,
                      (s: St, i: Path, o: RawPath) => Lift(s, FillAndFlattenPdfForm(lib, s.fs, i, o, form, flatten)),
                      "Failed to fill PDF form: ", "application/pdf")
  }

  /** Redaction accepts exactly the requests whose name ends in `.pdf` and whose
      terms decode to a list, of anything; every other request gets 400 and
      leaves the state as it was, and no accepted request is answered with 400. */
  lemma RedactValidation(ctx: Ctx, st: St, lib: PdfLib, parse: JsonParser, up: Upload, termsJson: string,
                         outputFilename: string)
    ensures var r := RedactPdfFile(ctx, st, lib, parse, up, termsJson, outputFilename);
            var valid := IsPdfName(up.filename) && parse(termsJson).Some? && IsList(parse(termsJson).value);
            && (!valid ==> r.status == 400 && r.st == st && r.tasks == [])
            && (!IsPdfName(up.filename) ==> r.body == Detail(NotAPdf(up.filename)))
            && (IsPdfName(up.filename) && parse(termsJson).None? ==>
                  r.body == Detail("Invalid JSON format for terms_to_redact."))
            && (IsPdfName(up.filename) && parse(termsJson).Some? && !IsList(parse(termsJson).value) ==>
                  r.body == Detail("Terms to redact must be a JSON array."))
            && (valid ==> r.status != 400)
  {
    if IsPdfName(up.filename) && parse(termsJson).Some? && IsList(parse(termsJson).value) {
      var terms := parse(termsJson).value.items;
      var body := (s: St, i: Path, o: RawPath) => Lift(s, RedactPdf(lib, s.fs, i, o, terms));
      var s := SaveTempFile(ctx, st, up);
      if s.r.Ok? && AllocateOutput(ctx, s.st, UnderRoot, outputFilename).r.Ok? {
        SingleFileJobSpec(ctx, st, up, UnderRoot, outputFilename, body, "Failed to redact PDF: ", "application/pdf");
      }
    }
  }

  /** Filling accepts exactly the requests whose name ends in `.pdf` and whose
      form decodes to an object; every other request gets 400 and leaves the
      state as it was, and no accepted request is answered with 400. */
  lemma FillValidation(ctx: Ctx, st: St, lib: PdfLib, parse: JsonParser, up: Upload, formJson: string,
                       flatten: bool, outputFilename: string)
    ensures var r := FillPdfFormFile(ctx, st, lib, parse, up, formJson, flatten, outputFilename);
            var valid := IsPdfName(up.filename) && parse(formJson).Some? && IsObject(parse(formJson).value);
            && (!valid ==> r.status == 400 && r.st == st && r.tasks == [])
            && (!IsPdfName(up.filename) ==> r.body == Detail(NotAPdf(up.filename)))
            && (IsPdfName(up.filename) && parse(formJson).None? ==>
                  r.body == Detail("Invalid JSON format for form_data."))
            && (IsPdfName(up.filename) && parse(formJson).Some? && !IsObject(parse(formJson).value) ==>
                  r.body == Detail("Form data must be a JSON object."))
            && (valid ==> r.status != 400)
  {
    if IsPdfName(up.filename) && parse(formJson).Some? && IsObject(parse(formJson).value) {
      var form := parse(formJson).value.fields;
      var body := (s: St, i: Path, o: RawPath) => Lift(s, FillAndFlattenPdfForm(lib, s.fs, i, o, form, flatten));
      var s := SaveTempFile(ctx, st, up);
      if s.r.Ok? && AllocateOutput(ctx, s.st, UnderRoot, outputFilename).r.Ok? {
        SingleFileJobSpec(ctx, st, up, UnderRoot, outputFilename, body, "Failed to fill PDF form: ", "application/pdf");
      }
    }
  }

  /** Once staged, a redaction ends with the input removed; the status is 200
      exactly when `redact_pdf` succeeded, with the `{stem}_{uuid}{suffix}`
      output under the root served as `output_filename`, and the reason
      otherwise. */
  lemma RedactRun(ctx: Ctx, st: St, lib: PdfLib, parse: JsonParser, up: Upload, termsJson: string,
                  outputFilename: string)
    requires IsPdfName(up.filename) && TermsList(parse, termsJson).Ok?
    requires SaveTempFile(ctx, st, up).r.Ok?
    ensures var r := RedactPdfFile(ctx, st, lib, parse, up, termsJson, outputFilename);
            var s := SaveTempFile(ctx, st, up);
            var out := ctx.root + [UniqueName(ctx.uuid(s.st.used), outputFilename)];
            var red := RedactPdf(lib, s.st.fs, s.r.value, out, parse(termsJson).value.items);
            && !Exists(r.st.fs, s.r.value)
            && (r.status == 200 <==> red.r.Ok?)
            && (red.r.Ok? ==> r.body == FileBody(out, outputFilename, "application/pdf")
                              && r.tasks == [CleanFile(s.r.value), CleanFile(out)])
            && (red.r.Err? ==> r.status == 500 && r.body == Detail("Failed to redact PDF: " + red.r.error.msg))
  {
    var terms := parse(termsJson).value.items;
    var body := (s: St, i: Path, o: RawPath) => Lift(s, RedactPdf(lib, s.fs, i, o, terms));
    var s := SaveTempFile(ctx, st, up);
    UnderRootIsChild(ctx, s.st, outputFilename);
    SingleFileJobSpec(ctx, st, up, UnderRoot, outputFilename, body, "Failed to redact PDF: ", "application/pdf");
  }

  /** Once staged, a metadata scrub ends with the input removed; the status is
      200 exactly when `scrub_pdf_metadata` succeeded. */
  lemma ScrubRun(ctx: Ctx, st: St, lib: PdfLib, up: Upload, outputFilename: string)
    requires IsPdfName(up.filename) && SaveTempFile(ctx, st, up).r.Ok?
    ensures var r := ScrubMetadataFile(ctx, st, lib, up, outputFilename);
            var s := SaveTempFile(ctx, st, up);
            var out := ctx.root + [UniqueName(ctx.uuid(s.st.used), outputFilename)];
            var sc := ScrubPdfMetadata(lib, s.st.fs, s.r.value, out);
            && !Exists(r.st.fs, s.r.value)
            && (r.status == 200 <==> sc.r.Ok?)
            && (sc.r.Ok? ==> r.body == FileBody(out, outputFilename, "application/pdf")
                             && r.tasks == [CleanFile(s.r.value), CleanFile(out)])
            && (sc.r.Err? ==> r.status == 500 && r.body == Detail("Failed to scrub metadata: " + sc.r.error.msg))
  {
    var body := (s: St, i: Path, o: RawPath) => Lift(s, ScrubPdfMetadata(lib, s.fs, i, o));
    var s := SaveTempFile(ctx, st, up);
    UnderRootIsChild(ctx, s.st, outputFilename);
    SingleFileJobSpec(ctx, st, up, UnderRoot, outputFilename, body, "Failed to scrub metadata: ", "application/pdf");
  }

  /** Once staged, a form fill ends with the input removed; the status is 200
      exactly when `fill_and_flatten_pdf_form` succeeded. */
  lemma FillRun(ctx: Ctx, st: St, lib: PdfLib, parse: JsonParser, up: Upload, formJson: string,
                flatten: bool, outputFilename: string)
    requires IsPdfName(up.filename) && FormObject(parse, formJson).Ok?
    requires SaveTempFile(ctx, st, up).r.Ok?
    ensures var r := FillPdfFormFile(ctx, st, lib, parse, up, formJson, flatten, outputFilename);
            var s := SaveTempFile(ctx, st, up);
            var out := ctx.root + [UniqueName(ctx.uuid(s.st.used), outputFilename)];
            var f := FillAndFlattenPdfForm(lib, s.st.fs, s.r.value, out, parse(formJson).value.fields, flatten);
            && !Exists(r.st.fs, s.r.value)
            && (r.status == 200 <==> f.r.Ok?)
            && (f.r.Ok? ==> r.body == FileBody(out, outputFilename, "application/pdf")
                            && r.tasks == [CleanFile(s.r.value), CleanFile(out)])
            && (f.r.Err? ==> r.status == 500 && r.body == Detail("Failed to fill PDF form: " + f.r.error.msg))
  {
    var form := parse(formJson).value.fields;
    var body := (s: St, i: Path, o: RawPath) => Lift(s, FillAndFlattenPdfForm(lib, s.fs, i, o, form, flatten));
    var s := SaveTempFile(ctx, st, up);
    UnderRootIsChild(ctx, s.st, outputFilename);
    SingleFileJobSpec(ctx, st, up, UnderRoot, outputFilename, body, "Failed to fill PDF form: ", "application/pdf");
  }

  // ---------------------------------------------------------------- download

  /** `mimetypes.guess_type(filename)[0]`, as an oracle. */
  type MimeGuess = string -> Option<string>

  /** The guessed type, or `application/octet-stream` when there is none. */
  function MediaType(guess: MimeGuess, filename: string): string
  {
    match guess(filename)
    case Some(t) => if t != "" then t else "application/octet-stream"
    case None => "application/octet-stream"
  }

  /** `TEMP_DIR / temp_dir_name / filename`, both parts client-supplied. */
  function DownloadPath(ctx: Ctx, tempDirName: string, filename: string): RawPath
  {
    Join(Join(ctx.root, tempDirName), filename)
  }

  /** `GET /api/pdf/download_temp_file/{temp_dir_name}/{filename:path}`: 404
      when the path is not a file, then the containment check (`g`), then the
      file. Nothing catches the `AttributeError` of the call as written. */
  function DownloadTempFile(ctx: Ctx, st: St, g: Guard, guess: MimeGuess, tempDirName: string, filename: string): Response
  {
    var p := DownloadPath(ctx, tempDirName, filename);
    if !IsFile(st.fs, p) then Reject(404, "File not found.", st)
    else if g == StartsWith then Unhandled(st)
    else if !Within(Normalize(p), Normalize(ctx.root)) then Reject(403, "Forbidden: Attempted directory traversal.", st)
    else Response(200, FileBody(p, filename, MediaType(guess, filename)), st, [])
  }

  /** As written the endpoint never serves a file: a missing file is 404 and an
      existing one fails on `starts_with` with 500. */
  lemma DownloadAsWrittenNeverServes(ctx: Ctx, st: St, guess: MimeGuess, tempDirName: string, filename: string)
    ensures var r := DownloadTempFile(ctx, st, StartsWith, guess, tempDirName, filename);
            && r.st == st && r.tasks == []
            && (IsFile(st.fs, DownloadPath(ctx, tempDirName, filename)) <==> r.status == 500)
            && (!IsFile(st.fs, DownloadPath(ctx, tempDirName, filename)) <==> r.status == 404)
  {
  }

  /** With the containment check the code describes, the endpoint serves a file
      exactly when the joined path is a file whose normal form lies inside the
      root; what it serves is that entry, so it is inside the root. The 404
      check comes first: a missing file is 404 whatever the path. */
  lemma DownloadServesOnlyInside(ctx: Ctx, st: St, guess: MimeGuess, tempDirName: string, filename: string)
    ensures var p := DownloadPath(ctx, tempDirName, filename);
            var r := DownloadTempFile(ctx, st, SegmentPrefix, guess, tempDirName, filename);
            && r.st == st && r.tasks == []
            && (!IsFile(st.fs, p) <==> r.status == 404)
            && (r.status == 200 <==> IsFile(st.fs, p) && Within(Normalize(p), ctx.root))
            && (r.status == 403 <==> IsFile(st.fs, p) && !Within(Normalize(p), ctx.root))
            && (r.status == 200 ==> Walk(st.fs, p).value == Normalize(p) && Within(Walk(st.fs, p).value, ctx.root)
                                    && r.body == FileBody(p, filename, MediaType(guess, filename)))
  {
    var p := DownloadPath(ctx, tempDirName, filename);
    NormalizeOfNormal(ctx.root);
    JoinComponents(ctx.root, tempDirName);
    JoinComponents(Join(ctx.root, tempDirName), filename);
    WalkIsNormalize(st.fs, p);
  }

  /** `temp_dir_name` may itself be `..`: a file beside the root is then
      refused with 403 by the intended check, and still answered with 500 as
      written. */
  lemma DownloadParentForbidden(ctx: Ctx, st: St, guess: MimeGuess, x: string)
    requires |ctx.root| > 0 && IsOrdinary(x) && x != NameOf(ctx.root)
    requires IsFile(st.fs, ctx.root + ["..", x])
    ensures DownloadTempFile(ctx, st, SegmentPrefix, guess, "..", x).status == 403
    ensures DownloadTempFile(ctx, st, StartsWith, guess, "..", x).status == 500
  {
    DownloadBesideRoot(ctx, x);
  }

  /** `TEMP_DIR / ".." / x` names `x` beside the root once normalised, which
      is outside the root unless `x` is the root's own name. */
  lemma DownloadBesideRoot(ctx: Ctx, x: string)
    requires |ctx.root| > 0 && IsOrdinary(x)
    ensures DownloadPath(ctx, "..", x) == ctx.root + ["..", x]
    ensures Normalize(ctx.root + ["..", x]) == Parent(ctx.root) + [x]
    ensures x != NameOf(ctx.root) ==> !Within(Normalize(ctx.root + ["..", x]), Normalize(ctx.root))
  {
    BesideRootPath(ctx, x);
    NormalizeOfNormal(ctx.root);
    var q := Parent(ctx.root) + [x];
    assert q[|ctx.root| - 1] == x;
  }

  lemma BesideRootPath(ctx: Ctx, x: string)
    requires |ctx.root| > 0 && IsOrdinary(x)
    ensures DownloadPath(ctx, "..", x) == ctx.root + ["..", x]
    ensures Normalize(ctx.root + ["..", x]) == Parent(ctx.root) + [x]
  {
    assert Split("..", '/') == [".."] by { SplitNoSep("..", '/'); }
    assert [".."][1..] == [];
    assert Components("..") == [".."];
    assert Split(x, '/') == [x] by { SplitNoSep(x, '/'); }
    assert [x][1..] == [];
    assert Components(x) == [x];
    var p := ctx.root + ["..", x];
    assert DownloadPath(ctx, "..", x) == p;
    assert Parent(p) == ctx.root + [".."];
    assert Parent(ctx.root + [".."]) == ctx.root;
    NormalizeOfNormal(ctx.root);
  }
}
