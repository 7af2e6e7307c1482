/** What the endpoints of `app/routers/convert/conversion.py` promise: the
    workspace each request gets, what staging writes, what an answered request
    serves, and the content-type guards. */
module ConversionRouterFacts {
  import opened Wrappers
  import opened Errors
  import opened PyStr
  import opened PyPath
  import opened FileSystem
  import opened TempStorage
  import opened Archive
  import opened Jobs
  import opened Layout
  import opened Conversion
  import opened ConversionRouter

  // ---------------------------------------------------------------- the workspace

  /** An exception always ends in an error response with no background task;
      an `HTTPException` keeps its status and detail exactly when the endpoint
      re-raises it. */
  lemma CaughtSpec(h: Handling, e: Exc, st: St)
    ensures var r := Caught(h, e, st);
            && r.st == st && r.tasks == [] && r.body.Detail?
            && (h.passHttp && e.HttpException? ==> r.status == e.status && r.body.detail == e.detail)
            && (!(h.passHttp && e.HttpException?) ==> r.status == 500 && h.prefix <= r.body.detail)
  {
  }

  /** With a fresh uuid the workspace is the new, empty directory
      `root/<uuid>`. */
  lemma WorkspaceUnfolds(ctx: Ctx, st: St, ups: seq<Upload>, convert: Convert, h: Handling, a: Answer)
    requires Ready(ctx, st) && Fresh(ctx, st, 1)
    ensures var dir := WorkDir(ctx, st.used);
            var st1 := St(st.fs[dir := Dir], st.used + 1);
            && Valid(st1.fs) && IsDirAt(st1.fs, dir) && Children(st1.fs, dir) == {}
            && WorkspaceJob(ctx, st, ups, convert, h, a) == Workspace(st1, dir, ups, convert, h, a)
  {
    NewDirFresh(ctx, st);
  }

  /** A file answer means staging and the conversion both succeeded; it
      serves what the conversion returned, from the state it left. */
  lemma WorkspaceAnswers(st: St, dir: Path, ups: seq<Upload>, convert: Convert, h: Handling, a: Answer)
    requires Workspace(st, dir, ups, convert, h, a).body.FileBody?
    ensures var w := StageInto(st.fs, dir, ups);
            && w.r.Ok?
            && convert(w.fs, dir).r == Ok(Workspace(st, dir, ups, convert, h, a).body.path)
            && convert(w.fs, dir).fs == Workspace(st, dir, ups, convert, h, a).st.fs
  {
  }

  /** After a successful answer the background removes the workspace (unless
      the conversion left a file in its place), and for `pdf_to_images` the
      answered archive too (unless it is a directory or leads to the root);
      nothing is ever added. */
  lemma TasksClean(ctx: Ctx, fs: FS, dir: Path, res: RawPath, unlink: bool)
    requires |dir| > 0 && !IsFile(fs, dir)
    requires unlink ==> !IsDir(fs, res) && Walk(fs, res) != Some([])
    ensures Sub(RunTasks(ctx, fs, Tasks(dir, res, unlink)), fs)
    ensures !Exists(RunTasks(ctx, fs, Tasks(dir, res, unlink)), dir)
    ensures unlink ==> !Exists(RunTasks(ctx, fs, Tasks(dir, res, unlink)), res)
  {
    var ts := Tasks(dir, res, unlink);
    WalkOfPath(fs, dir);
    assert ts[0] == RmTreeQuiet(dir);
    TasksRemoveTargets(ctx, fs, ts);
    if unlink {
      assert ts[1] == UnlinkQuiet(res);
    }
  }

  // ---------------------------------------------------------------- staging

  /** Writing distinct new files directly into an existing directory leaves
      file i holding data i. */
  lemma {:induction false} WriteAllReads(fs: FS, dir: Path, ps: seq<RawPath>, data: seq<Bytes>)
    requires |ps| == |data|
    requires Valid(fs) && IsDirAt(fs, dir) && ChildrenOf(dir, ps) && Distinct(ps)
    requires WriteAll(fs, ps, data).r.Ok?
    ensures var s := WriteAll(fs, ps, data);
            Valid(s.fs) && IsDirAt(s.fs, dir) && forall i :: 0 <= i < |ps| ==> Read(s.fs, ps[i]) == Ok(data[i])
    decreases |ps|
  {
    if |ps| > 0 {
      var p: Path := dir + [ps[0][|dir|]];
      assert ps[0] == p;
      assert Parent(p) == dir;
      WalkOfNormal(fs, dir);
      assert Locate(fs, p) == Some(p);
      WriteNormal(fs, p, data[0]);
      var fs1 := fs[p := File(data[0])];
      assert ChildrenOf(dir, ps[1..]) && Distinct(ps[1..]) by {
        forall i | 0 <= i < |ps| - 1
          ensures |ps[1..][i]| == |dir| + 1 && ps[1..][i][..|dir|] == dir && IsOrdinary(ps[1..][i][|dir|])
        {
          assert ps[1..][i] == ps[i + 1];
        }
      }
      WriteAllReads(fs1, dir, ps[1..], data[1..]);
      var s := WriteAll(fs, ps, data);
      assert p !in ps[1..] by {
        forall i | 0 <= i < |ps| - 1 ensures ps[1..][i] != p { assert ps[1..][i] == ps[i + 1]; }
      }
      WriteAllKeeps(fs1, dir, ps[1..], data[1..], p);
      ReadNormal(s.fs, p);
      forall i | 1 <= i < |ps| ensures Read(s.fs, ps[i]) == Ok(data[i]) {
        assert ps[1..][i - 1] == ps[i];
      }
    }
  }

  /** Uploads with distinct ordinary names go to distinct entries directly
      inside the workspace. */
  lemma StagedPathsInside(dir: Path, ups: seq<Upload>)
    requires forall i :: 0 <= i < |ups| ==> IsOrdinary(ups[i].filename)
    requires forall i, j :: 0 <= i < j < |ups| ==> ups[i].filename != ups[j].filename
    ensures ChildrenOf(dir, StagedPaths(dir, ups)) && Distinct(StagedPaths(dir, ups))
    ensures forall i :: 0 <= i < |ups| ==> StagedPaths(dir, ups)[i] == dir + [ups[i].filename]
  {
    var ps := StagedPaths(dir, ups);
    forall i | 0 <= i < |ups| ensures ps[i] == dir + [ups[i].filename] {
      JoinOrdinaryWithin(dir, ups[i].filename);
    }
    forall i, j | 0 <= i < j < |ups| ensures ps[i] != ps[j] {
      assert ps[i][|dir|] != ps[j][|dir|];
    }
  }

  /** Staging one upload with an ordinary name into the empty workspace writes
      exactly that file. */
  lemma StageOne(fs: FS, dir: Path, u: Upload)
    requires Valid(fs) && IsDirAt(fs, dir) && Children(fs, dir) == {}
    requires IsOrdinary(u.filename)
    ensures var w := StageInto(fs, dir, [u]);
            && w.r.Ok?
            && w.fs == fs[dir + [u.filename] := File(u.content)]
            && Valid(w.fs) && IsDirAt(w.fs, dir)
            && Read(w.fs, Join(dir, u.filename)) == Ok(u.content)
  {
    JoinOrdinaryWithin(dir, u.filename);
    var p: Path := dir + [u.filename];
    assert p !in Children(fs, dir);
    assert Parent(p) == dir;
    WriteNormal(fs, p, u.content);
    var ps := StagedPaths(dir, [u]);
    assert ps == [p];
    var fs1 := fs[p := File(u.content)];
    assert WriteAll(fs1, ps[1..], Contents([u])[1..]) == Step(fs1, Ok([]));
    ReadAfterWrite(fs, p, u.content);
  }

  /** A single upload with an ordinary name, under a fresh uuid: the request
      is answered from what the conversion does to the staged workspace. */
  lemma WorkspaceOne(ctx: Ctx, st: St, u: Upload, convert: Convert, h: Handling, a: Answer)
    requires Ready(ctx, st) && Fresh(ctx, st, 1) && IsOrdinary(u.filename)
    ensures var dir := WorkDir(ctx, st.used);
            && IsDirAt(Staged(st, dir, u), dir)
            && Read(Staged(st, dir, u), Join(dir, u.filename)) == Ok(u.content)
            && WorkspaceJob(ctx, st, [u], convert, h, a) == Finish(convert(Staged(st, dir, u), dir), dir, h, a, st.used + 1)
  {
    var dir := WorkDir(ctx, st.used);
    WorkspaceUnfolds(ctx, st, [u], convert, h, a);
    StageOne(st.fs[dir := Dir], dir, u);
  }

  /** The same request read off the conversion's outcome: its output served
      with a 200, a re-raised `HTTPException` as it is, any other exception as
      a 500 in the endpoint's words. */
  lemma WorkspaceOneOutcome(ctx: Ctx, st: St, u: Upload, convert: Convert, h: Handling, a: Answer)
    requires Ready(ctx, st) && Fresh(ctx, st, 1) && IsOrdinary(u.filename)
    ensures var dir := WorkDir(ctx, st.used);
            var t := convert(Staged(st, dir, u), dir);
            var r := WorkspaceJob(ctx, st, [u], convert, h, a);
            && (t.r.Ok? ==> r == Response(200, FileBody(t.r.value, a.filename, a.mediaType), St(t.fs, st.used + 1), Tasks(dir, t.r.value, a.unlink)))
            && (t.r.Err? && t.r.error.HttpException? && h.passHttp ==> r == Reject(t.r.error.status, t.r.error.detail, St(t.fs, st.used + 1)))
            && (t.r.Err? && t.r.error.Exc? ==> r == Reject(500, Wrapped(h, t.r.error.msg), St(t.fs, st.used + 1)))
  {
    WorkspaceOne(ctx, st, u, convert, h, a);
  }

  /** A conversion that refuses the staged upload with an `HTTPException`,
      leaving the workspace as staging left it, is answered with that status
      and detail by an endpoint that re-raises it; the staged workspace stays
      behind. */
  lemma WorkspaceOneRefused(ctx: Ctx, st: St, u: Upload, convert: Convert, h: Handling, a: Answer,
                            status: nat, detail: string)
    requires Ready(ctx, st) && Fresh(ctx, st, 1) && IsOrdinary(u.filename) && h.passHttp
    requires var dir := WorkDir(ctx, st.used);
             convert(Staged(st, dir, u), dir) == Step(Staged(st, dir, u), Err(HttpException(status, detail)))
    ensures var dir := WorkDir(ctx, st.used);
            WorkspaceJob(ctx, st, [u], convert, h, a) == Reject(status, detail, St(Staged(st, dir, u), st.used + 1))
  {
    WorkspaceOneOutcome(ctx, st, u, convert, h, a);
  }

  /** A conversion that returns its output is answered with that file and a
      200; the background tasks remove the workspace (and the output when the
      endpoint unlinks it). */
  lemma WorkspaceOneServed(ctx: Ctx, st: St, u: Upload, convert: Convert, h: Handling, a: Answer)
    requires Ready(ctx, st) && Fresh(ctx, st, 1) && IsOrdinary(u.filename)
    requires var dir := WorkDir(ctx, st.used);
             convert(Staged(st, dir, u), dir).r.Ok?
    ensures var dir := WorkDir(ctx, st.used);
            var t := convert(Staged(st, dir, u), dir);
            WorkspaceJob(ctx, st, [u], convert, h, a)
              == Response(200, FileBody(t.r.value, a.filename, a.mediaType), St(t.fs, st.used + 1), Tasks(dir, t.r.value, a.unlink))
  {
    WorkspaceOneOutcome(ctx, st, u, convert, h, a);
  }

  // ---------------------------------------------------------------- pdf_to_images

  /** When the upload sits in the workspace under an ordinary name, a
      successful run answers with `TEMP_DIR/<output_zip_filename stem>.zip`,
      an archive that holds every page image the library rendered, page k
      as `<stem>_page_<k+1>.<format>`, and besides them the uploaded document
      itself under its own name. */
  lemma PdfToImagesStepsHold(lib: ConvLib, packer: Packer, root: Path, fs: FS, dir: Path,
                             name: Name, fmt: string, zipName: string, data: Bytes)
    requires Valid(fs) && IsDirAt(fs, dir) && '/' !in fmt && WalksTree(packer)
    requires dir + [name] in fs && fs[dir + [name]] == File(data)
    requires PdfToImagesSteps(lib, packer, root, fs, dir, name, fmt, zipName).r.Ok?
    ensures lib.rasterize(data, fmt).Ok?
    ensures var s := PdfToImagesSteps(lib, packer, root, fs, dir, name, fmt, zipName);
            var pages := lib.rasterize(data, fmt).value;
            && WithSuffix(Join(root, zipName), ".zip") == Ok(s.r.value)
            && exists z :: && Read(s.fs, s.r.value) == Ok(packer.zip.serialize(z))
                           && Entry(name, data) in z
                           && forall k :: 0 <= k < |pages| ==> Entry(ImageName(Stem(name), k, fmt), pages[k]) in z
  {
    var imgs := ConvertPdfToImagesLib(lib, fs, Join(dir, name), dir, fmt);
    PdfToImagesKeepsInput(lib, fs, dir, name, fmt);
    PdfToImagesWritesPages(lib, fs, dir, name, fmt);
    JoinOrdinaryWithin(dir, name);
    ReadNormal(fs, dir + [name]);
    var pages := lib.rasterize(data, fmt).value;
    var zipPath := Join(root, zipName);
    MakeArchiveSpec(packer, imgs.fs, zipPath, dir, name);
    var ready := ArchiveDir(imgs.fs, Parent(zipPath));
    var z := TreeEntries(ready.fs, dir, packer.walk(ready.fs, dir));
    assert Entry(name, data) in z;
    PagesArchived(packer, imgs.fs, zipPath, dir, Stem(name), fmt, pages);
  }

  /** Page images readable in `dir` are entries of the archive made of `dir`,
      also once the archive's own directory has been made. */
  lemma PagesArchived(packer: Packer, fs: FS, zipPath: RawPath, dir: Path, stem: string, fmt: string, pages: seq<Bytes>)
    requires Valid(fs) && |zipPath| > 0 && WalksTree(packer) && '/' !in stem && '/' !in fmt
    requires forall k :: 0 <= k < |pages| ==> Read(fs, Join(dir, ImageName(stem, k, fmt))) == Ok(pages[k])
    ensures var fs0 := ArchiveDir(fs, Parent(zipPath)).fs;
            forall k :: 0 <= k < |pages| ==> Entry(ImageName(stem, k, fmt), pages[k]) in TreeEntries(fs0, dir, packer.walk(fs0, dir))
  {
    var fs0 := ArchiveDir(fs, Parent(zipPath)).fs;
    forall k | 0 <= k < |pages|
      ensures Entry(ImageName(stem, k, fmt), pages[k]) in TreeEntries(fs0, dir, packer.walk(fs0, dir))
    {
      ImageNameOrdinary(stem, k, fmt);
      var n: Name := ImageName(stem, k, fmt);
      JoinOrdinaryWithin(dir, n);
      ReadNormal(fs, dir + [n]);
      MakeArchiveSpec(packer, fs, zipPath, dir, n);
    }
  }

  /** `pdf_to_images` accepts only `application/pdf`, and rejects before it
      creates a directory. An accepted upload with an ordinary name that is
      answered gets the zip of the fresh workspace `root/<uuid>`, which holds
      the upload and every page image the library rendered from it; the
      workspace and the zip are removed after sending. */
  lemma PdfToImagesServesArchive(ctx: Ctx, st: St, lib: ConvLib, packer: Packer, p: Part, fmt: string, zipName: string)
    requires Ready(ctx, st) && Fresh(ctx, st, 1)
    requires IsOrdinary(p.file.filename) && '/' !in fmt && WalksTree(packer)
    requires PdfToImages(ctx, st, lib, packer, p, fmt, zipName).body.FileBody?
    ensures var r := PdfToImages(ctx, st, lib, packer, p, fmt, zipName);
            var dir := WorkDir(ctx, st.used);
            && p.contentType == "application/pdf"
            && r.status == 200
            && r.body.FileBody?
            && WithSuffix(Join(ctx.root, zipName), ".zip") == Ok(r.body.path)
            && r.body.filename == zipName && r.body.mediaType == "application/zip"
            && r.tasks == [RmTreeQuiet(dir), UnlinkQuiet(r.body.path)]
            && lib.rasterize(p.file.content, fmt).Ok?
            && var pages := lib.rasterize(p.file.content, fmt).value;
               exists z :: && Read(r.st.fs, r.body.path) == Ok(packer.zip.serialize(z))
                           && Entry(p.file.filename, p.file.content) in z
                           && forall k :: 0 <= k < |pages| ==> Entry(ImageName(Stem(p.file.filename), k, fmt), pages[k]) in z
  {
    var dir := WorkDir(ctx, st.used);
    var convert := ImagesConvert(lib, packer, ctx.root, p.file.filename, fmt, zipName);
    var h := Handling(false, "Conversion failed: ", "");
    var a := Answer(zipName, "application/zip", true);
    WorkspaceUnfolds(ctx, st, [p.file], convert, h, a);
    var st1 := St(st.fs[dir := Dir], st.used + 1);
    WorkspaceAnswers(st1, dir, [p.file], convert, h, a);
    StageOne(st1.fs, dir, p.file);
    var w := StageInto(st1.fs, dir, [p.file]);
    var name: Name := p.file.filename;
    PdfToImagesStepsHold(lib, packer, ctx.root, w.fs, dir, name, fmt, zipName, p.file.content);
  }

  // ---------------------------------------------------------------- pdf_to_text

  /** An answered `pdf_to_text` serves `root/<uuid>/output_filename`, holding
      every page's text of the uploaded bytes followed by a newline. */
  lemma PdfToTextServes(ctx: Ctx, st: St, lib: ConvLib, p: Part, outName: string)
    requires Ready(ctx, st) && Fresh(ctx, st, 1) && IsOrdinary(p.file.filename)
    requires PdfToText(ctx, st, lib, p, outName).body.FileBody?
    ensures var r := PdfToText(ctx, st, lib, p, outName);
            var dir := WorkDir(ctx, st.used);
            && p.contentType == "application/pdf"
            && r.status == 200
            && r.body == FileBody(Join(dir, outName), outName, "text/plain")
            && r.tasks == [RmTreeQuiet(dir)]
            && lib.pageTexts(p.file.content).Ok?
            && Read(r.st.fs, r.body.path) == Ok(lib.encode(PagesText(lib.pageTexts(p.file.content).value)))
  {
    var dir := WorkDir(ctx, st.used);
    var convert := PdfTextConvert(lib, p.file.filename, outName);
    var h := Handling(false, "Text extraction failed: ", "");
    var a := Answer(outName, "text/plain", false);
    WorkspaceUnfolds(ctx, st, [p.file], convert, h, a);
    var st1 := St(st.fs[dir := Dir], st.used + 1);
    WorkspaceAnswers(st1, dir, [p.file], convert, h, a);
    StageOne(st1.fs, dir, p.file);
  }

  // ---------------------------------------------------------------- pdf_to_pptx, pptx_to_pdf, pdf_to_any

  /** An answered `pdf_to_any` serves what LibreOffice produced from the
      staged upload in the fresh workspace; the workspace is removed after
      sending. */
  lemma PdfToAnyServes(ctx: Ctx, st: St, office: Office, p: Part, fmt: string, outName: string)
    requires Ready(ctx, st) && Fresh(ctx, st, 1) && IsOrdinary(p.file.filename)
    requires PdfToAny(ctx, st, office, p, fmt, outName).body.FileBody?
    ensures var r := PdfToAny(ctx, st, office, p, fmt, outName);
            var dir := WorkDir(ctx, st.used);
            && p.contentType == "application/pdf"
            && r.status == 200
            && ConvertViaLibreOffice(office, Staged(st, dir, p.file), Join(dir, p.file.filename), dir, fmt) == Step(r.st.fs, Ok(r.body.path))
            && r.tasks == [RmTreeQuiet(dir)]
  {
    var dir := WorkDir(ctx, st.used);
    var convert := OfficeConvert(office, p.file.filename, fmt);
    var h := AnyHandling(fmt);
    var a := Answer(PdfToAnyName(outName, p.file.filename, fmt), MediaTypeFor(fmt), false);
    WorkspaceUnfolds(ctx, st, [p.file], convert, h, a);
    var st1 := St(st.fs[dir := Dir], st.used + 1);
    WorkspaceAnswers(st1, dir, [p.file], convert, h, a);
    StageOne(st1.fs, dir, p.file);
  }

  /** An answered `pdf_to_any` names its file with the `.{target_format}`
      extension (the client's own name when it already has it) and sends the
      media type of the format. */
  lemma PdfToAnyAnswerNamed(ctx: Ctx, st: St, office: Office, p: Part, fmt: string, outName: string)
    requires PdfToAny(ctx, st, office, p, fmt, outName).body.FileBody?
    ensures var r := PdfToAny(ctx, st, office, p, fmt, outName);
            && r.body.filename == PdfToAnyName(outName, p.file.filename, fmt)
            && EndsWith(r.body.filename, "." + fmt)
            && r.body.mediaType == MediaTypeFor(fmt)
  {
    PdfToAnyNameSpec(outName, p.file.filename, fmt);
    WorkspaceJobNames(ctx, st, [p.file], OfficeConvert(office, p.file.filename, fmt), AnyHandling(fmt),
                      Answer(PdfToAnyName(outName, p.file.filename, fmt), MediaTypeFor(fmt), false));
  }

  /** A file answer carries the endpoint's name and media type. */
  lemma WorkspaceJobNames(ctx: Ctx, st: St, ups: seq<Upload>, convert: Convert, h: Handling, a: Answer)
    ensures var r := WorkspaceJob(ctx, st, ups, convert, h, a);
            r.body.FileBody? ==> r.body.filename == a.filename && r.body.mediaType == a.mediaType
  {
  }

  /** A LibreOffice failure reaches the client of the three LibreOffice
      endpoints as the helper's own 500 and detail, not re-wrapped. */
  lemma OfficeErrorsPassThrough(st: St, dir: Path, office: Office, u: Upload, fmt: string, h: Handling, a: Answer)
    requires h.passHttp
    requires StageInto(st.fs, dir, [u]).r.Ok?
    requires var w := StageInto(st.fs, dir, [u]);
             var c := ConvertViaLibreOffice(office, w.fs, Join(dir, u.filename), dir, fmt);
             c.r.Err? && c.r.error.HttpException?
    ensures var w := StageInto(st.fs, dir, [u]);
            var c := ConvertViaLibreOffice(office, w.fs, Join(dir, u.filename), dir, fmt);
            var r := Workspace(st, dir, [u], OfficeConvert(office, u.filename, fmt), h, a);
            r.status == c.r.error.status && r.body == Detail(c.r.error.detail) && r.tasks == []
  {
  }

  // ---------------------------------------------------------------- images_to_pdf

  /** An answered `images_to_pdf` with distinct ordinary upload names serves
      `root/<uuid>/output_filename`: the PDF of one picture per upload, picture
      i decoded from upload i, in upload order. */
  lemma ImagesToPdfServes(ctx: Ctx, st: St, lib: ConvLib, parts: seq<Part>, outName: string)
    requires Ready(ctx, st) && Fresh(ctx, st, 1)
    requires forall i :: 0 <= i < |parts| ==> IsOrdinary(parts[i].file.filename)
    requires forall i, j :: 0 <= i < j < |parts| ==> parts[i].file.filename != parts[j].file.filename
    requires ImagesToPdf(ctx, st, lib, parts, outName).body.FileBody?
    ensures var r := ImagesToPdf(ctx, st, lib, parts, outName);
            var dir := WorkDir(ctx, st.used);
            && |parts| > 0 && AllImages(parts)
            && r.status == 200
            && r.body == FileBody(Join(dir, outName), outName, "application/pdf")
            && r.tasks == [RmTreeQuiet(dir)]
            && exists pics: seq<Picture> ::
                 && OpensEach(lib, Files(parts), pics) && Read(r.st.fs, r.body.path).Ok?
                 && PillowWrote(lib, pics, r.body.path, Read(r.st.fs, r.body.path).value)
  {
    var dir := WorkDir(ctx, st.used);
    var ups := Files(parts);
    var convert := PicturesConvert(lib, ups, outName);
    var h := Handling(false, "Conversion failed: ", "");
    var a := Answer(outName, "application/pdf", false);
    WorkspaceUnfolds(ctx, st, ups, convert, h, a);
    var st1 := St(st.fs[dir := Dir], st.used + 1);
    PicturesServed(st1, dir, lib, ups, outName, h, a);
  }

  /** Picture i is what the library decodes from upload i. */
  predicate OpensEach(lib: ConvLib, ups: seq<Upload>, pics: seq<Picture>)
  {
    |pics| == |ups| && forall i :: 0 <= i < |ups| ==> lib.openImage(ups[i].content) == Ok(pics[i])
  }

  /** Inside a workspace, an answered `images_to_pdf` with distinct ordinary
      upload names serves the PDF of one picture per upload, picture i decoded
      from upload i. */
  lemma PicturesServed(st: St, dir: Path, lib: ConvLib, ups: seq<Upload>, outName: string, h: Handling, a: Answer)
    requires Valid(st.fs) && IsDirAt(st.fs, dir)
    requires forall i :: 0 <= i < |ups| ==> IsOrdinary(ups[i].filename)
    requires forall i, j :: 0 <= i < j < |ups| ==> ups[i].filename != ups[j].filename
    requires Workspace(st, dir, ups, PicturesConvert(lib, ups, outName), h, a).body.FileBody?
    ensures var r := Workspace(st, dir, ups, PicturesConvert(lib, ups, outName), h, a);
            exists pics: seq<Picture> ::
              && OpensEach(lib, ups, pics) && Read(r.st.fs, r.body.path).Ok?
              && PillowWrote(lib, pics, r.body.path, Read(r.st.fs, r.body.path).value)
  {
    var convert := PicturesConvert(lib, ups, outName);
    WorkspaceAnswers(st, dir, ups, convert, h, a);
    StagedPathsInside(dir, ups);
    var ps := StagedPaths(dir, ups);
    WriteAllReads(st.fs, dir, ps, Contents(ups));
    var w := StageInto(st.fs, dir, ups);
    var pics := OpenImages(lib, w.fs, ps).value;
    assert Decoded(lib, w.fs, ps, pics);
  }

  /** Once the images are staged and opened, an output name whose extension
      Pillow does not know is answered 500 "Conversion failed: unknown file
      extension: <ext>", with the workspace left in place. */
  lemma ImagesToPdfUnknownExtension(st: St, dir: Path, lib: ConvLib, ups: seq<Upload>, outName: string)
    requires |ups| > 0
    requires var w := StageInto(st.fs, dir, ups);
             w.r.Ok? && OpenImages(lib, w.fs, StagedPaths(dir, ups)).Ok?
    requires SaveExt(Join(dir, outName)) !in lib.formats
    ensures var r := Workspace(st, dir, ups, PicturesConvert(lib, ups, outName), Handling(false, "Conversion failed: ", ""),
                               Answer(outName, "application/pdf", false));
            && r.status == 500
            && r.body == Detail("Conversion failed: " + UnknownExtension(SaveExt(Join(dir, outName))).msg)
            && r.tasks == []
  {
    var w := StageInto(st.fs, dir, ups);
    var ext := SaveExt(Join(dir, outName));
    var pics := OpenImages(lib, w.fs, StagedPaths(dir, ups)).value;
    var e := UnknownExtension(ext);
    assert SavePictures(lib, w.fs, pics, Join(dir, outName)) == Step(w.fs, Err(e));
    assert PicturesConvert(lib, ups, outName)(w.fs, dir) == Step(w.fs, Err(e));
    var h := Handling(false, "Conversion failed: ", "");
    var a := Answer(outName, "application/pdf", false);
    assert Workspace(st, dir, ups, PicturesConvert(lib, ups, outName), h, a) == Caught(h, e, St(w.fs, st.used));
  }

  /** Once the images are staged and opened, an output name whose format has
      no multi-frame writer (".bmp", say) is answered 500 "Conversion failed:
      'BMP'" before the output is opened: the staged workspace is left as it
      was, an existing file of that name included. */
  lemma ImagesToPdfNoSaveAll(st: St, dir: Path, lib: ConvLib, ups: seq<Upload>, outName: string)
    requires |ups| > 0
    requires var w := StageInto(st.fs, dir, ups);
             w.r.Ok? && OpenImages(lib, w.fs, StagedPaths(dir, ups)).Ok?
    requires var out := Join(dir, outName);
             SaveExt(out) in lib.formats && SaveFormat(lib, out) !in lib.saveAll
    ensures var out := Join(dir, outName);
            var r := Workspace(st, dir, ups, PicturesConvert(lib, ups, outName), Handling(false, "Conversion failed: ", ""),
                               Answer(outName, "application/pdf", false));
            && r.status == 500
            && r.body == Detail("Conversion failed: " + NoSaveAll(SaveFormat(lib, out)).msg)
            && r.st.fs == StageInto(st.fs, dir, ups).fs
            && r.tasks == []
  {
    var w := StageInto(st.fs, dir, ups);
    var out := Join(dir, outName);
    var pics := OpenImages(lib, w.fs, StagedPaths(dir, ups)).value;
    var e := NoSaveAll(SaveFormat(lib, out));
    assert SavePictures(lib, w.fs, pics, out) == Step(w.fs, Err(e));
    assert PicturesConvert(lib, ups, outName)(w.fs, dir) == Step(w.fs, Err(e));
    var h := Handling(false, "Conversion failed: ", "");
    var a := Answer(outName, "application/pdf", false);
    assert Workspace(st, dir, ups, PicturesConvert(lib, ups, outName), h, a) == Caught(h, e, St(w.fs, st.used));
  }

  // ---------------------------------------------------------------- text_to_pdf

  /** An answered `text_to_pdf` serves `root/<uuid>/output_filename`: the
      rendering of the text layout of the upload's lines. */
  lemma TextToPdfServes(ctx: Ctx, st: St, lib: ConvLib, p: Part, outName: string)
    requires Ready(ctx, st) && Fresh(ctx, st, 1) && IsOrdinary(p.file.filename)
    requires TextToPdf(ctx, st, lib, p, outName).body.FileBody?
    ensures var r := TextToPdf(ctx, st, lib, p, outName);
            var dir := WorkDir(ctx, st.used);
            && p.contentType == "text/plain"
            && r.status == 200
            && r.body == FileBody(Join(dir, outName), outName, "application/pdf")
            && r.tasks == [RmTreeQuiet(dir)]
            && lib.decode(p.file.content).Ok?
            && Read(r.st.fs, r.body.path) == Ok(lib.renderText(TextLayout(Split(lib.decode(p.file.content).value, '\n'))))
  {
    var dir := WorkDir(ctx, st.used);
    var convert := TextConvert(lib, p.file.filename, outName);
    var h := Handling(false, "Conversion failed: ", "");
    var a := Answer(outName, "application/pdf", false);
    WorkspaceUnfolds(ctx, st, [p.file], convert, h, a);
    var st1 := St(st.fs[dir := Dir], st.used + 1);
    WorkspaceAnswers(st1, dir, [p.file], convert, h, a);
    StageOne(st1.fs, dir, p.file);
  }

  // ---------------------------------------------------------------- guards

  /** `pdf_to_images` checks the declared type first: anything but
      `application/pdf` is a 400 before a directory is made or a uuid drawn. */
  lemma PdfToImagesGuard(ctx: Ctx, st: St, lib: ConvLib, packer: Packer, p: Part, fmt: string, zipName: string)
    ensures p.contentType != "application/pdf" ==> PdfToImages(ctx, st, lib, packer, p, fmt, zipName) == Reject(400, OnlyPdf(), st)
    ensures p.contentType == "application/pdf" ==> PdfToImages(ctx, st, lib, packer, p, fmt, zipName).st.used == st.used + 1
  {
  }

  /** `pdf_to_text` accepts only `application/pdf`, checked before staging. */
  lemma PdfToTextGuard(ctx: Ctx, st: St, lib: ConvLib, p: Part, outName: string)
    ensures p.contentType != "application/pdf" ==> PdfToText(ctx, st, lib, p, outName) == Reject(400, OnlyPdf(), st)
    ensures p.contentType == "application/pdf" ==> PdfToText(ctx, st, lib, p, outName).st.used == st.used + 1
  {
  }

  /** `pdf_to_pptx` accepts only `application/pdf`, checked before staging. */
  lemma PdfToPptxGuard(ctx: Ctx, st: St, office: Office, p: Part, outName: string)
    ensures p.contentType != "application/pdf" ==> PdfToPptx(ctx, st, office, p, outName) == Reject(400, OnlyPdf(), st)
    ensures p.contentType == "application/pdf" ==> PdfToPptx(ctx, st, office, p, outName).st.used == st.used + 1
  {
  }

  /** `pdf_to_any` accepts only `application/pdf`, with its own message. */
  lemma PdfToAnyGuard(ctx: Ctx, st: St, office: Office, p: Part, fmt: string, outName: string)
    ensures p.contentType != "application/pdf" ==> PdfToAny(ctx, st, office, p, fmt, outName) == Reject(400, OnlyPdfForAny(), st)
    ensures p.contentType == "application/pdf" ==> PdfToAny(ctx, st, office, p, fmt, outName).st.used == st.used + 1
  {
  }

  /** `text_to_pdf` accepts only `text/plain`. */
  lemma TextToPdfGuard(ctx: Ctx, st: St, lib: ConvLib, p: Part, outName: string)
    ensures p.contentType != "text/plain" ==> TextToPdf(ctx, st, lib, p, outName) == Reject(400, OnlyTxt(), st)
    ensures p.contentType == "text/plain" ==> TextToPdf(ctx, st, lib, p, outName).st.used == st.used + 1
  {
  }

  /** `pptx_to_pdf` accepts exactly the two PowerPoint types. */
  lemma PptxToPdfGuard(ctx: Ctx, st: St, office: Office, p: Part, outName: string)
    ensures p.contentType !in {PptxType(), PptType()} ==> PptxToPdf(ctx, st, office, p, outName) == Reject(400, OnlyPowerPoint(), st)
    ensures p.contentType in {PptxType(), PptType()} ==> PptxToPdf(ctx, st, office, p, outName).st.used == st.used + 1
  {
    if p.contentType in {PptxType(), PptType()} {
      PptxToPdfDraws(ctx, st, office, p, outName);
    } else {
      PptxToPdfRefuses(ctx, st, office, p, outName);
    }
  }

  /** Any other content type is refused with 400 before anything happens. */
  lemma PptxToPdfRefuses(ctx: Ctx, st: St, office: Office, p: Part, outName: string)
    requires p.contentType !in {PptxType(), PptType()}
    ensures PptxToPdf(ctx, st, office, p, outName) == Reject(400, OnlyPowerPoint(), st)
  {
  }

  /** A PowerPoint upload draws one uuid for its workspace. */
  lemma PptxToPdfDraws(ctx: Ctx, st: St, office: Office, p: Part, outName: string)
    requires p.contentType in {PptxType(), PptType()}
    ensures PptxToPdf(ctx, st, office, p, outName).st.used == st.used + 1
  {
  }

  /** `images_to_pdf` rejects an empty list, then any part that is not a JPEG
      or PNG image, both before a directory is made. */
  lemma ImagesToPdfGuards(ctx: Ctx, st: St, lib: ConvLib, parts: seq<Part>, outName: string)
    ensures |parts| == 0 ==> ImagesToPdf(ctx, st, lib, parts, outName) == Reject(400, NoImageFiles(), st)
    ensures |parts| > 0 && !AllImages(parts) ==> ImagesToPdf(ctx, st, lib, parts, outName) == Reject(400, OnlyImages(), st)
    ensures |parts| > 0 && AllImages(parts) ==> ImagesToPdf(ctx, st, lib, parts, outName).st.used == st.used + 1
  {
  }
}
