/** The older basic router, `app/routers/basic_tools.py` (not mounted by
    `main.py`): merge, split with a JSON summary, and a download that always
    claims `application/pdf`. It shares the staging loop, the merge tail and
    the download flow with the mounted router and differs where it allocates
    its outputs and what it answers. */
module LegacyBasicTools {
  import opened Wrappers
  import opened Errors
  import opened PyStr
  import opened PyPath
  import opened FileSystem
  import opened TempStorage
  import opened JsonValue
  import opened Archive
  import opened PdfHandler
  import opened Jobs
  import opened PdfBasicTools

  // ---------------------------------------------------------------- merge

  /** `POST /merge`: the output is `get_temp_file_path(output_filename)`, drawn
      outside the `try` and with the client's name used as given. */
  function LegacyMergePdfFiles(ctx: Ctx, st: St, lib: PdfLib, ups: seq<Upload>, outputFilename: string): Response
  {
    if |ups| == 0 then Reject(400, "No files provided for merging.", st)
    else if |ups| < 2 then Reject(400, "Please upload at least two PDF files to merge.", st)
    else
      var o := GetTempFilePath(ctx, st, outputFilename, false);
      match o.r
      case Err(_) => Unhandled(o.st)
      case Ok(out) => MergeStaged(ctx, lib, StageAll(ctx, o.st, ups), out, outputFilename)
  }

  /** Fewer than two uploads are refused with 400 before anything is made. */
  lemma LegacyMergeNeedsTwo(ctx: Ctx, st: St, lib: PdfLib, ups: seq<Upload>, outputFilename: string)
    requires |ups| < 2
    ensures var r := LegacyMergePdfFiles(ctx, st, lib, ups, outputFilename);
            && r.status == 400 && r.st == st && r.tasks == []
            && r.body == Detail(if |ups| == 0 then "No files provided for merging."
                                else "Please upload at least two PDF files to merge.")
  {
  }

  /** Past the count check and the output allocation, the endpoint is the
      staging loop followed by the shared merge tail. */
  lemma LegacyMergeUnfolds(ctx: Ctx, st: St, lib: PdfLib, ups: seq<Upload>, outputFilename: string)
    requires |ups| >= 2 && GetTempFilePath(ctx, st, outputFilename, false).r.Ok?
    ensures var o := GetTempFilePath(ctx, st, outputFilename, false);
            LegacyMergePdfFiles(ctx, st, lib, ups, outputFilename)
            == MergeStaged(ctx, lib, StageAll(ctx, o.st, ups), o.r.value, outputFilename)
  {
  }

  /** A failure to make the output's directory is unhandled; otherwise every
      staged upload is gone when the response is sent. */
  lemma LegacyMergeCleans(ctx: Ctx, st: St, lib: PdfLib, ups: seq<Upload>, outputFilename: string)
    requires |ups| >= 2
    ensures var o := GetTempFilePath(ctx, st, outputFilename, false);
            var r := LegacyMergePdfFiles(ctx, st, lib, ups, outputFilename);
            && (o.r.Err? ==> r == Unhandled(o.st))
            && (o.r.Ok? ==> var s := StageAll(ctx, o.st, ups);
                            forall i :: 0 <= i < |s.paths| ==> !Exists(r.st.fs, s.paths[i]))
  {
    var o := GetTempFilePath(ctx, st, outputFilename, false);
    if o.r.Ok? {
      var s := StageAll(ctx, o.st, ups);
      StagedNonEmpty(ctx, o.st, ups);
      MergeStagedCleans(ctx, lib, s, o.r.value, outputFilename);
      LegacyMergeUnfolds(ctx, st, lib, ups, outputFilename);
    }
  }

  /** Only a request with two uploads whose output directory was made can
      succeed. */
  lemma LegacyMergeAnswered(ctx: Ctx, st: St, lib: PdfLib, ups: seq<Upload>, outputFilename: string)
    requires LegacyMergePdfFiles(ctx, st, lib, ups, outputFilename).status == 200
    ensures |ups| >= 2 && GetTempFilePath(ctx, st, outputFilename, false).r.Ok?
  {
  }

  /** `get_temp_file_path(name)` joins the name onto a new directory: a plain
      name lands inside it, an absolute one replaces it. */
  lemma TempPathOfName(ctx: Ctx, st: St, name: string)
    requires GetTempFilePath(ctx, st, name, false).r.Ok?
    ensures IsOrdinary(name) ==> GetTempFilePath(ctx, st, name, false).r.value == ctx.root + [ctx.uuid(st.used), name]
    ensures IsOrdinary(name) ==> IsNormal(ctx.root + [ctx.uuid(st.used), name])
    ensures IsAbsolute(name) ==> GetTempFilePath(ctx, st, name, false).r.value == Components(name)
  {
    if IsOrdinary(name) {
      JoinOrdinaryWithin(ctx.root + [ctx.uuid(st.used)], name);
    }
  }

  /** A successful merge serves the file at the path `get_temp_file_path`
      returned, under the requested name, and queues the output and each
      staged input; running the queue removes them all. */
  lemma LegacyMergeServes(ctx: Ctx, st: St, lib: PdfLib, ups: seq<Upload>, outputFilename: string, out: Path)
    requires GetTempFilePath(ctx, st, outputFilename, false).r == Ok(out) && |out| > 0
    requires LegacyMergePdfFiles(ctx, st, lib, ups, outputFilename).status == 200
    ensures var r := LegacyMergePdfFiles(ctx, st, lib, ups, outputFilename);
            && r.body == FileBody(out, outputFilename, "application/pdf")
            && !Exists(RunTasks(ctx, r.st.fs, r.tasks), out)
            && var s := StageAll(ctx, GetTempFilePath(ctx, st, outputFilename, false).st, ups);
               forall i :: 0 <= i < |s.paths| ==> !Exists(RunTasks(ctx, r.st.fs, r.tasks), s.paths[i])
  {
    LegacyMergeAnswered(ctx, st, lib, ups, outputFilename);
    var o := GetTempFilePath(ctx, st, outputFilename, false);
    StagedNonEmpty(ctx, o.st, ups);
    LegacyMergeUnfolds(ctx, st, lib, ups, outputFilename);
    MergeStagedSuccess(ctx, lib, StageAll(ctx, o.st, ups), out, outputFilename);
  }

  /** With a plain file name, a successful merge answers with that very name
      inside a new directory under the root, and running the queued tasks
      removes the output. */
  lemma LegacyMergeSuccess(ctx: Ctx, st: St, lib: PdfLib, ups: seq<Upload>, outputFilename: string)
    requires IsOrdinary(outputFilename)
    requires LegacyMergePdfFiles(ctx, st, lib, ups, outputFilename).status == 200
    ensures var r := LegacyMergePdfFiles(ctx, st, lib, ups, outputFilename);
            var out := ctx.root + [ctx.uuid(st.used), outputFilename];
            && |ups| >= 2
            && r.body == FileBody(out, outputFilename, "application/pdf")
            && !Exists(RunTasks(ctx, r.st.fs, r.tasks), out)
  {
    LegacyMergeAnswered(ctx, st, lib, ups, outputFilename);
    TempPathOfName(ctx, st, outputFilename);
    var out: Path := ctx.root + [ctx.uuid(st.used), outputFilename];
    LegacyMergeServes(ctx, st, lib, ups, outputFilename, out);
  }

  /** An absolute `output_filename` replaces the temporary directory: the merged
      file is written at, and served from, the path the client named. */
  lemma LegacyMergeAbsoluteName(ctx: Ctx, st: St, lib: PdfLib, ups: seq<Upload>, x: string)
    requires IsOrdinary(x)
    requires LegacyMergePdfFiles(ctx, st, lib, ups, "/" + x).status == 200
    ensures LegacyMergePdfFiles(ctx, st, lib, ups, "/" + x).body == FileBody([x], "/" + x, "application/pdf")
  {
    SlashNameComponents(x);
    LegacyMergeAnswered(ctx, st, lib, ups, "/" + x);
    TempPathOfName(ctx, st, "/" + x);
    var out: Path := [x];
    LegacyMergeServes(ctx, st, lib, ups, "/" + x, out);
  }

  /** `/x` names the single component `x` at the top of the tree. */
  lemma SlashNameComponents(x: string)
    requires IsOrdinary(x)
    ensures Components("/" + x) == [x] && IsAbsolute("/" + x)
  {
    assert Split("/" + x, '/') == [""] + Split(x, '/') by {
      SplitAfterSep("", x, '/');
      assert "" + ['/'] + x == "/" + x;
    }
    SplitNoSep(x, '/');
    var parts := [""] + [x];
    assert Split("/" + x, '/') == parts;
    assert parts[1..] == [x];
    assert KeepComponents(parts) == KeepComponents([x]);
    assert [x][1..] == [];
    assert KeepComponents([x]) == [x] + KeepComponents([]);
  }

  // ---------------------------------------------------------------- split

  function DownloadPrefix(): string
  {
    "/api/pdf/download_temp_file/"
  }

  /** `f"/api/pdf/download_temp_file/{p.parent.name}/{p.name}"`. */
  function DownloadLink(p: RawPath): string
  {
    DownloadPrefix() + NameOf(Parent(p)) + "/" + NameOf(p)
  }

  /** The route `/download_temp_file/{temp_dir_name}/{filename:path}` under
      `/api/pdf`: one non-empty segment, a `/`, then the rest of the path. */
  function RouteArgs(url: string): Option<(string, string)>
  {
    if !(DownloadPrefix() <= url) then None
    else
      var parts := Split(url[|DownloadPrefix()|..], '/');
      if |parts| < 2 || parts[0] == "" then None
      else Some((parts[0], JoinWith(parts[1..], "/")))
  }

  /** The link of a file two levels under the root routes back to that file:
      the route recovers its directory and base name, and the download joins
      them onto the root again. */
  lemma LinkRoundTrip(ctx: Ctx, a: Name, b: Name)
    ensures var p := ctx.root + [a, b];
            && RouteArgs(DownloadLink(p)) == Some((a, b))
            && DownloadPath(ctx, a, b) == p
  {
    LinkRoutes(ctx.root, a, b);
    JoinOrdinaryWithin(ctx.root, a);
    JoinOrdinaryWithin(ctx.root + [a], b);
  }

  /** The route recovers the directory and base name from the link. */
  lemma LinkRoutes(root: Path, a: Name, b: Name)
    ensures RouteArgs(DownloadLink(root + [a, b])) == Some((a, b))
  {
    var p := root + [a, b];
    assert Parent(p) == root + [a];
    var link := DownloadLink(p);
    assert link == DownloadPrefix() + (a + "/" + b);
    assert link[|DownloadPrefix()|..] == a + ['/'] + b;
    SplitTwo(a, b);
    assert [a, b][1..] == [b];
  }

  /** Two slash-free names around one `/` split back into the two names. */
  lemma SplitTwo(a: Name, b: Name)
    ensures Split(a + ['/'] + b, '/') == [a, b]
  {
    SplitAfterSep(a, b, '/');
    SplitNoSep(b, '/');
  }

  /** The JSON answer: a message, the number of files and a download link for
      the first one. */
  function SplitSummary(parts: seq<RawPath>): Json
    requires |parts| > 0
  {
    JObj(map["message" := JStr("PDF split successfully!"),
             "files_generated" := JNum(|parts|),
             "example_download_link" := JStr(DownloadLink(parts[0]))])
  }

  /** `POST /split`: the upload is staged and the output directory made before
      the `try`; no archive is built. */
  function LegacySplitPdfFile(ctx: Ctx, st: St, lib: PdfLib, up: Upload, pages: Option<string>, prefix: string): Response
  {
    if !IsPdfName(up.filename) then Reject(400, NotAPdf(up.filename), st)
    else
      var s := SaveTempFile(ctx, st, up);
      match s.r
      case Err(_) => Unhandled(s.st)
      case Ok(input) =>
        var o := NewDir(ctx, s.st);
        match o.r
        case Err(_) => Unhandled(o.st)
        case Ok(dir) => LegacySplitStaged(ctx, o.st, lib, input, dir, pages, prefix)
  }

  /** The `try`/`except`/`finally` once the input is staged. */
  function LegacySplitStaged(ctx: Ctx, st: St, lib: PdfLib, input: Path, dir: Path, pages: Option<string>,
                             prefix: string): Response
  {
    var sp := SplitPdf(lib, st.fs, input, dir, OrEmpty(pages), prefix);
    var st' := St(CleanupTempFile(ctx, sp.fs, input), st.used);
    match sp.r
    case Err(e) => Failure(e, "Failed to split PDF: ", st')
    case Ok(parts) =>
      if |parts| == 0 then Failure(SplitEmpty(), "Failed to split PDF: ", st')
      else Response(200, JsonBody(SplitSummary(parts)), st', [CleanFile(input)] + CleanTasks(parts) + [CleanFiles(dir)])
  }

  /** Only the name is checked before staging. */
  lemma LegacySplitRejectsNonPdf(ctx: Ctx, st: St, lib: PdfLib, up: Upload, pages: Option<string>, prefix: string)
    ensures var r := LegacySplitPdfFile(ctx, st, lib, up, pages, prefix);
            (r.status == 400 && r.st == st) <== !IsPdfName(up.filename)
    ensures !IsPdfName(up.filename) ==> LegacySplitPdfFile(ctx, st, lib, up, pages, prefix).body == Detail(NotAPdf(up.filename))
    ensures IsPdfName(up.filename) && SaveTempFile(ctx, st, up).r.Ok? ==>
              var s := SaveTempFile(ctx, st, up);
              var o := NewDir(ctx, s.st);
              && (o.r.Err? ==> LegacySplitPdfFile(ctx, st, lib, up, pages, prefix) == Unhandled(o.st))
              && (o.r.Ok? ==> LegacySplitPdfFile(ctx, st, lib, up, pages, prefix)
                              == LegacySplitStaged(ctx, o.st, lib, s.r.value, o.r.value, pages, prefix))
  {
  }

  /** The staged input is gone on every exit from the `try` block; a splitter
      yielding nothing gives the dedicated 500. */
  lemma LegacySplitStagedCleans(ctx: Ctx, st: St, lib: PdfLib, input: Path, dir: Path, pages: Option<string>, prefix: string)
    requires |input| > 0
    ensures var r := LegacySplitStaged(ctx, st, lib, input, dir, pages, prefix);
            && !Exists(r.st.fs, input)
            && (SplitPdf(lib, st.fs, input, dir, OrEmpty(pages), prefix).r == Ok([]) ==>
                  r.status == 500 && r.body == Detail("Failed to split PDF or no pages matched."))
  {
    var sp := SplitPdf(lib, st.fs, input, dir, OrEmpty(pages), prefix);
    CleanupRemovesStaged(ctx, sp.fs, input);
  }

  /** A successful split answers with the count of parts and the link of the
      first, and queues the input, each part and the directory; running the
      queue removes the input, every part and the directory. */
  lemma LegacySplitStagedSuccess(ctx: Ctx, st: St, lib: PdfLib, input: Path, dir: Path, pages: Option<string>, prefix: string)
    requires |input| > 0 && |dir| > 0
    requires LegacySplitStaged(ctx, st, lib, input, dir, pages, prefix).status == 200
    ensures var r := LegacySplitStaged(ctx, st, lib, input, dir, pages, prefix);
            var sp := SplitPdf(lib, st.fs, input, dir, OrEmpty(pages), prefix);
            && sp.r.Ok? && |sp.r.value| > 0
            && r.body == JsonBody(SplitSummary(sp.r.value))
            && r.body.value.fields["files_generated"] == JNum(|sp.r.value|)
            && r.body.value.fields["example_download_link"] == JStr(DownloadLink(sp.r.value[0]))
            && !Exists(RunTasks(ctx, r.st.fs, r.tasks), input)
            && !Exists(RunTasks(ctx, r.st.fs, r.tasks), dir)
  {
    var r := LegacySplitStaged(ctx, st, lib, input, dir, pages, prefix);
    var sp := SplitPdf(lib, st.fs, input, dir, OrEmpty(pages), prefix);
    var parts := sp.r.value;
    CleanupRemovesStaged(ctx, sp.fs, input);
    var head := [CleanFile(input)] + CleanTasks(parts);
    RunTasksAppend(ctx, r.st.fs, head, [CleanFiles(dir)]);
    var fs1 := RunTasks(ctx, r.st.fs, head);
    TasksShrink(ctx, r.st.fs, head);
    ExistsInSub(fs1, r.st.fs, input);
    WalkOfPath(fs1, dir);
    TasksRemoveTargets(ctx, fs1, [CleanFiles(dir)]);
    var fin := RunTasks(ctx, r.st.fs, r.tasks);
    TasksShrink(ctx, fs1, [CleanFiles(dir)]);
    ExistsInSub(fin, fs1, input);
  }

  // ---------------------------------------------------------------- download

  /** The older download names every file `application/pdf`. */
  function AlwaysPdf(): MimeGuess
  {
    (_: string) => Some("application/pdf")
  }

  /** `GET /download_temp_file/{temp_dir_name}/{filename:path}`: the mounted
      flow (404, then the containment check, then the file) with a fixed type. */
  function LegacyDownloadTempFile(ctx: Ctx, st: St, g: Guard, tempDirName: string, filename: string): Response
  {
    DownloadTempFile(ctx, st, g, AlwaysPdf(), tempDirName, filename)
  }

  /** As written the older download never serves either; with the intended
      check it serves exactly the files inside the root, always as a PDF. */
  lemma LegacyDownloadSpec(ctx: Ctx, st: St, tempDirName: string, filename: string)
    ensures var p := DownloadPath(ctx, tempDirName, filename);
            var w := LegacyDownloadTempFile(ctx, st, StartsWith, tempDirName, filename);
            var r := LegacyDownloadTempFile(ctx, st, SegmentPrefix, tempDirName, filename);
            && (IsFile(st.fs, p) <==> w.status == 500)
            && (!IsFile(st.fs, p) <==> w.status == 404)
            && (r.status == 200 <==> IsFile(st.fs, p) && Within(Normalize(p), ctx.root))
            && (r.status == 200 ==> r.body == FileBody(p, filename, "application/pdf"))
  {
    DownloadAsWrittenNeverServes(ctx, st, AlwaysPdf(), tempDirName, filename);
    DownloadServesOnlyInside(ctx, st, AlwaysPdf(), tempDirName, filename);
  }
}
