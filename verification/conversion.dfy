/** The conversion router, `app/routers/convert/conversion.py` (mounted under
    `/api/convert`; `app/routers/conversion.py` is the same file): the
    LibreOffice hand-off, the conversion helpers around their libraries, and
    the eight endpoints, each working in a fresh `temp_conversions/<uuid4>/`
    directory that is removed after a successful response is sent. */
module Conversion {
  import opened Wrappers
  import opened Errors
  import opened PyStr
  import opened PyPath
  import opened FileSystem
  import opened TempStorage
  import opened Archive
  import opened Jobs
  import opened Layout

  // ---------------------------------------------------------------- LibreOffice

  /** What one `soffice --headless --convert-to` run ends in: it completed
      (leaving a file system and its stderr), exited non-zero, could not be
      started, ran past the 300 s timeout, or raised something else. */
  datatype SofficeRun =
    | Completed(fs: FS, stderr: string)
    | ProcessError(stderr: string)
    | NotInstalled
    | TimedOut
    | Raised(e: Exc)

  /** The subprocess (file system, input, output directory, format) and the
      order in which a directory lists its entries (`Path.glob`). */
  datatype Office = Office(run: (FS, RawPath, Path, string) -> SofficeRun, list: (FS, Path) -> seq<Path>)

  /** Every entry of `d` is listed, and nothing else. */
  ghost predicate ListsChildren(office: Office)
  {
    forall fs: FS, d: Path, q: Path :: q in office.list(fs, d) <==> q in fs && |q| == |d| + 1 && d <= q
  }

  /** `*.{format}` matches a name that ends with the dot and the format. */
  predicate Matches(q: Path, fmt: string)
  {
    EndsWith(NameOf(q), "." + fmt)
  }

  /** `output_dir.glob(f"*.{format}")`: the listed entries of the directory
      that match, in listing order. */
  function Glob(fs: FS, d: Path, qs: seq<Path>, fmt: string): (found: seq<Path>)
    ensures forall i :: 0 <= i < |found| ==> found[i] in qs && found[i] in fs && Parent(found[i]) == d && Matches(found[i], fmt)
  {
    if |qs| == 0 then []
    else
      var rest := Glob(fs, d, qs[1..], fmt);
      if qs[0] in fs && Parent(qs[0]) == d && Matches(qs[0], fmt) then [qs[0]] + rest else rest
  }

  lemma {:induction false} GlobFindsEvery(fs: FS, d: Path, qs: seq<Path>, fmt: string, q: Path)
    requires q in qs && q in fs && Parent(q) == d && Matches(q, fmt)
    ensures |Glob(fs, d, qs, fmt)| > 0
    decreases |qs|
  {
    if qs[0] != q {
      GlobFindsEvery(fs, d, qs[1..], fmt, q);
    }
  }

  function NotFoundPrefix(): string { "LibreOffice not found" }

  function SofficeMissing(): string
  {
    NotFoundPrefix() + ". Please install LibreOffice on the server and ensure 'soffice' is in PATH."
  }

  /** The four `HTTPException(500)`s of `convert_via_libreoffice`. */
  function ProcessFailed(stderr: string): Exc { HttpException(500, ProcessPrefix() + stderr) }
  function TimeoutError(): Exc { HttpException(500, "LibreOffice conversion timed out.") }
  function GeneralError(msg: string): Exc { HttpException(500, "General LibreOffice error: " + msg) }

  function NoOutput(fmt: string, stderr: string): string
  {
    "LibreOffice did not produce a " + fmt + " file. Stderr: " + stderr
  }

  /** Where LibreOffice is expected to put its output: the input's stem with
      the new format, in the output directory. */
  function Expected(input: RawPath, outDir: Path, fmt: string): RawPath
  {
    Join(outDir, Stem(NameOf(input)) + "." + fmt)
  }

  /** After a completed run: the expected file if it exists, else the first
      `*.{format}` entry of the directory, else the general error. */
  function FindOutput(office: Office, fs2: FS, stderr: string, input: RawPath, outDir: Path, fmt: string): (s: Step<RawPath>)
  {
    var expected := Expected(input, outDir, fmt);
    if Exists(fs2, expected) then Step(fs2, Ok(expected))
    else
      var found := Glob(fs2, outDir, office.list(fs2, outDir), fmt);
      if |found| > 0 then Step(fs2, Ok(found[0]))
      else Step(fs2, Err(GeneralError(NoOutput(fmt, stderr))))
  }

  /** `convert_via_libreoffice`: make the output directory (outside `try`),
      run soffice, map its failures, and look for the output. */
  function ConvertViaLibreOffice(office: Office, fs: FS, input: RawPath, outDir: Path, fmt: string): (s: Step<RawPath>)
  {
    match Mkdirs(fs, outDir)
    case Err(e) => Step(fs, Err(e))
    case Ok(fs1) =>
      match office.run(fs1, input, outDir, fmt)
      case ProcessError(err) => Step(fs1, Err(ProcessFailed(err)))
      case NotInstalled => Step(fs1, Err(HttpException(500, SofficeMissing())))
      case TimedOut => Step(fs1, Err(TimeoutError()))
      case Raised(e) => Step(fs1, Err(GeneralError(Text(e))))
      case Completed(fs2, err) => FindOutput(office, fs2, err, input, outDir, fmt)
  }

  /** Where the output is found: the expected name when it exists, otherwise
      an entry of the output directory whose name ends in `.{format}`, the
      first one listed; when neither exists (and the listing is complete) the
      result is the general error naming the format and soffice's stderr. */
  lemma FindOutputSpec(office: Office, fs2: FS, stderr: string, input: RawPath, outDir: Path, fmt: string)
    ensures var s := FindOutput(office, fs2, stderr, input, outDir, fmt);
            var expected := Expected(input, outDir, fmt);
            && s.fs == fs2
            && (Exists(fs2, expected) ==> s.r == Ok(expected))
            && (!Exists(fs2, expected) && s.r.Ok? ==>
                  s.r.value in fs2 && Parent(s.r.value) == outDir && Matches(s.r.value, fmt))
            && ((ListsChildren(office) && !Exists(fs2, expected)
                 && forall q :: q in fs2 && Parent(q) == outDir ==> !Matches(q, fmt))
                  ==> s.r == Err(GeneralError(NoOutput(fmt, stderr))))
  {
  }

  /** A completed run is followed by the search for its output. */
  lemma LibreOfficeCompleted(office: Office, fs: FS, input: RawPath, outDir: Path, fmt: string)
    requires Mkdirs(fs, outDir).Ok?
    requires office.run(Mkdirs(fs, outDir).value, input, outDir, fmt).Completed?
    ensures var run := office.run(Mkdirs(fs, outDir).value, input, outDir, fmt);
            ConvertViaLibreOffice(office, fs, input, outDir, fmt) == FindOutput(office, run.fs, run.stderr, input, outDir, fmt)
  {
  }

  function ProcessPrefix(): string { "LibreOffice conversion failed: " }

  /** A failure to make the output directory is an `OSError` raised before
      soffice runs. */
  lemma LibreOfficeMkdirFails(office: Office, fs: FS, input: RawPath, outDir: Path, fmt: string)
    requires Mkdirs(fs, outDir).Err?
    ensures var s := ConvertViaLibreOffice(office, fs, input, outDir, fmt);
            s == Step(fs, Err(Mkdirs(fs, outDir).error)) && IsOSError(s.r.error)
  {
    MkdirsRaisesOSError(fs, outDir);
  }

  /** A run that did not complete is a 500 whose detail names the cause. */
  lemma LibreOfficeRunFails(office: Office, fs: FS, input: RawPath, outDir: Path, fmt: string)
    requires Mkdirs(fs, outDir).Ok?
    requires !office.run(Mkdirs(fs, outDir).value, input, outDir, fmt).Completed?
    ensures var run := office.run(Mkdirs(fs, outDir).value, input, outDir, fmt);
            var s := ConvertViaLibreOffice(office, fs, input, outDir, fmt);
            && s.r.Err? && s.r.error.HttpException? && s.r.error.status == 500
            && s.r.error == (match run
                             case ProcessError(err) => ProcessFailed(err)
                             case NotInstalled => HttpException(500, SofficeMissing())
                             case TimedOut => TimeoutError()
                             case Raised(e) => GeneralError(Text(e))
                             case Completed(_, _) => s.r.error)
  {
  }

  // ---------------------------------------------------------------- names and media types

  /** `pdf_to_any`'s answer name: the client's `output_filename` when it
      already ends in `.{target_format}`, otherwise the upload's stem with that
      extension. */
  function PdfToAnyName(outputFilename: string, uploadName: string, fmt: string): string
  {
    if EndsWith(outputFilename, "." + fmt) then outputFilename
    else Stem(NameOf(Components(uploadName))) + "." + fmt
  }

  /** The answer name always carries the requested extension, and a name that
      already does is kept verbatim. */
  lemma PdfToAnyNameSpec(outputFilename: string, uploadName: string, fmt: string)
    ensures EndsWith(PdfToAnyName(outputFilename, uploadName, fmt), "." + fmt)
    ensures EndsWith(outputFilename, "." + fmt) ==> PdfToAnyName(outputFilename, uploadName, fmt) == outputFilename
    ensures !EndsWith(outputFilename, "." + fmt) ==>
              PdfToAnyName(outputFilename, uploadName, fmt)[..|PdfToAnyName(outputFilename, uploadName, fmt)| - |fmt| - 1]
              == Stem(NameOf(Components(uploadName)))
  {
    var r := PdfToAnyName(outputFilename, uploadName, fmt);
    if !EndsWith(outputFilename, "." + fmt) {
      var st := Stem(NameOf(Components(uploadName)));
      assert r[|r| - |"." + fmt|..] == "." + fmt;
      assert r[..|r| - |fmt| - 1] == st;
    }
  }

  /** The 14 target formats `pdf_to_any` knows a media type for. */
  function MediaTypes(): map<string, string>
  {
    map[
      "docx" := DocxType(),
      "xlsx" := XlsxType(),
      "pptx" := PptxType(),
      "txt" := "text/plain",
      "html" := "text/html",
      "odt" := OpenDocument("text"),
      "ods" := OpenDocument("spreadsheet"),
      "odp" := OpenDocument("presentation"),
      "rtf" := "application/rtf",
      "csv" := "text/csv",
      "xml" := "application/xml",
      "json" := "application/json",
      "jpg" := "image/jpeg",
      "png" := "image/png"
    ]
  }

  /** `media_type_map.get(target_format.lower(), "application/octet-stream")`. */
  function MediaTypeFor(fmt: string): string
  {
    var k := Lower(fmt);
    if k in MediaTypes() then MediaTypes()[k] else "application/octet-stream"
  }

  lemma LowerIdempotent(s: string)
    ensures Lower(Lower(s)) == Lower(s)
  {
  }

  /** The lookup ignores case: a format and its lower-case spelling get the
      same type; an unknown format falls back to the generic binary type. */
  lemma MediaTypeSpec(fmt: string)
    ensures MediaTypeFor(fmt) == MediaTypeFor(Lower(fmt))
    ensures Lower(fmt) in MediaTypes() ==> MediaTypeFor(fmt) == MediaTypes()[Lower(fmt)]
    ensures Lower(fmt) !in MediaTypes() ==> MediaTypeFor(fmt) == "application/octet-stream"
  {
    LowerIdempotent(fmt);
  }

  // ---------------------------------------------------------------- content types

  /** The Office Open XML and OpenDocument media types, by their common
      prefixes. */
  function OpenXml(kind: string): string { "application/vnd.openxmlformats-officedocument." + kind }
  function OpenDocument(kind: string): string { "application/vnd.oasis.opendocument." + kind }

  function DocxType(): string { OpenXml("wordprocessingml.document") }
  function XlsxType(): string { OpenXml("spreadsheetml.sheet") }
  function PptxType(): string { OpenXml("presentationml.presentation") }
  function PptType(): string { "application/vnd.ms-powerpoint" }

  /** The six office formats `any_to_pdf` hands to LibreOffice. */
  function OfficeTypes(): seq<string>
  {
    [ DocxType(),
      "application/msword",
      XlsxType(),
      "application/vnd.ms-excel",
      PptxType(),
      PptType() ]
  }

  /** `allowed_image_types`, and the images `any_to_pdf` draws itself. */
  function ImageTypes(): seq<string> { ["image/jpeg", "image/png"] }

  /** Python's `x in xs` on a list of strings, one element at a time. */
  predicate Among(x: string, xs: seq<string>)
    decreases |xs|
  {
    |xs| > 0 && (x == xs[0] || Among(x, xs[1..]))
  }

  lemma {:induction false} AmongIsIn(x: string, xs: seq<string>)
    ensures Among(x, xs) <==> x in xs
    decreases |xs|
  {
    if |xs| > 0 {
      AmongIsIn(x, xs[1..]);
      assert xs == [xs[0]] + xs[1..];
    }
  }

  /** The branch `any_to_pdf` takes for a content type. */
  datatype Route = CsvRoute | TextRoute | ImageRoute | OfficeRoute | Unsupported
  {
    /** The routes served by a Python library helper rather than LibreOffice. */
    predicate ByLibrary()
    {
      CsvRoute? || TextRoute? || ImageRoute?
    }
  }

  function AnyToPdfRoute(contentType: string): Route
  {
    if contentType == "text/csv" then CsvRoute
    else if contentType == "text/plain" then TextRoute
    else if Among(contentType, ImageTypes()) then ImageRoute
    else if Among(contentType, OfficeTypes()) then OfficeRoute
    else Unsupported
  }

  /** The guards of the single-format endpoints agree with the dispatch of
      `any_to_pdf`: what `text_to_pdf` accepts is drawn as text, what
      `images_to_pdf` accepts is an image, what `pptx_to_pdf` accepts goes to
      LibreOffice; and exactly the listed types are supported. */
  lemma RouteAgreesWithGuards(ct: string)
    ensures ct == "text/plain" ==> AnyToPdfRoute(ct) == TextRoute
    ensures ct in ImageTypes() ==> AnyToPdfRoute(ct) == ImageRoute
    ensures ct in {PptxType(), PptType()} ==> AnyToPdfRoute(ct) == OfficeRoute
    ensures AnyToPdfRoute(ct) != Unsupported <==> ct in ["text/csv", "text/plain"] + ImageTypes() + OfficeTypes()
  {
    AmongIsIn(ct, ImageTypes());
    AmongIsIn(ct, OfficeTypes());
  }

  // ---------------------------------------------------------------- the conversion libraries

  /** An image as Pillow holds it after `.convert('RGB')`. */
  datatype Picture = Picture(pixels: Bytes)

  /** The libraries the helpers call: PyMuPDF's rendering of every page in a
      format, Pillow's `Image.open(...).convert('RGB')`, its registry of save
      formats by lower-case extension (`Image.EXTENSION`), the upper-case
      formats that have a multi-frame writer (the keys of `Image.SAVE_ALL`)
      and that writer for a format, PyPDF2's `extract_text` per page,
      `read_text(encoding='utf-8')` (UTF-8 decoding that also turns "\r\n"
      and a lone "\r" into "\n"), `write_text(..., encoding='utf-8')` (UTF-8
      encoding; "\n" is written as is on POSIX), `pandas.read_csv`, and
      ReportLab's rendering of a laid-out canvas. */
  datatype ConvLib = ConvLib(
    rasterize: (Bytes, string) -> Result<seq<Bytes>, Exc>,
    openImage: Bytes -> Result<Picture, Exc>,
    formats: map<string, string>,
    saveAll: set<string>,
    saveImages: (seq<Picture>, string) -> Result<Bytes, Exc>,
    pageTexts: Bytes -> Result<seq<string>, Exc>,
    decode: Bytes -> Result<string, Exc>,
    encode: string -> Bytes,
    readCsv: Bytes -> Result<Table, Exc>,
    renderText: Canvas -> Bytes,
    renderTable: TableCanvas -> Bytes)

  /** The name of page k (from 0) of a document with stem `stem`. */
  function ImageName(stem: string, k: nat, fmt: string): string
  {
    stem + "_page_" + NatToString(k + 1) + "." + fmt
  }

  /** Where the first n pages are saved, in page order. */
  function ImagePaths(dir: Path, stem: string, fmt: string, n: nat): (ps: seq<RawPath>)
    ensures |ps| == n
    ensures forall i :: 0 <= i < n ==> ps[i] == Join(dir, ImageName(stem, i, fmt))
  {
    seq(n, i requires 0 <= i < n => Join(dir, ImageName(stem, i, fmt)))
  }

  /** `pix.save(p)` for each rendered page and its path, in order; the paths
      saved so far are collected. */
  function WriteAll(fs: FS, ps: seq<RawPath>, imgs: seq<Bytes>): (s: Step<seq<RawPath>>)
    requires |ps| == |imgs|
    decreases |ps|
  {
    if |ps| == 0 then Step(fs, Ok([]))
    else
      match WriteFile(fs, ps[0], imgs[0])
      case Err(e) => Step(fs, Err(e))
      case Ok(fs1) =>
        var rest := WriteAll(fs1, ps[1..], imgs[1..]);
        match rest.r
        case Err(e) => Step(rest.fs, Err(e))
        case Ok(done) => Step(rest.fs, Ok([ps[0]] + done))
  }

  /** A completed run returns every path, in order. */
  lemma {:induction false} WriteAllReturnsPaths(fs: FS, ps: seq<RawPath>, imgs: seq<Bytes>)
    requires |ps| == |imgs|
    ensures WriteAll(fs, ps, imgs).r.Ok? ==> WriteAll(fs, ps, imgs).r.value == ps
    decreases |ps|
  {
    if |ps| > 0 {
      match WriteFile(fs, ps[0], imgs[0])
      case Err(_) =>
      case Ok(fs1) =>
        WriteAllReturnsPaths(fs1, ps[1..], imgs[1..]);
    }
  }

  /** `convert_pdf_to_images_lib`: open the document, render every page and
      save page i as `{stem}_page_{i+1}.{format}` in the output directory. */
  function ConvertPdfToImagesLib(lib: ConvLib, fs: FS, pdf: RawPath, outDir: Path, fmt: string): Step<seq<RawPath>>
  {
    match Read(fs, pdf)
    case Err(e) => Step(fs, Err(e))
    case Ok(data) =>
      match lib.rasterize(data, fmt)
      case Err(e) => Step(fs, Err(e))
      case Ok(imgs) => WriteAll(fs, ImagePaths(outDir, Stem(NameOf(pdf)), fmt, |imgs|), imgs)
  }

  /** On success, image i of the result is page i + 1's name in the output
      directory, and there are as many as the library rendered pages. */
  lemma PdfToImagesNames(lib: ConvLib, fs: FS, pdf: RawPath, outDir: Path, fmt: string)
    requires ConvertPdfToImagesLib(lib, fs, pdf, outDir, fmt).r.Ok?
    ensures Read(fs, pdf).Ok? && lib.rasterize(Read(fs, pdf).value, fmt).Ok?
    ensures var n := |lib.rasterize(Read(fs, pdf).value, fmt).value|;
            var ps := ConvertPdfToImagesLib(lib, fs, pdf, outDir, fmt).r.value;
            |ps| == n && forall i :: 0 <= i < n ==> ps[i] == Join(outDir, ImageName(Stem(NameOf(pdf)), i, fmt))
  {
    var imgs := lib.rasterize(Read(fs, pdf).value, fmt).value;
    WriteAllReturnsPaths(fs, ImagePaths(outDir, Stem(NameOf(pdf)), fmt, |imgs|), imgs);
  }

  /** Page images are named after the document's stem and the page number
      from 1, so two pages never share a name. */
  lemma ImageNamesDistinct(stem: string, fmt: string, i: nat, j: nat)
    requires ImageName(stem, i, fmt) == ImageName(stem, j, fmt)
    ensures i == j
  {
    var a := ImageName(stem, i, fmt);
    var b := ImageName(stem, j, fmt);
    var n := |stem| + 6;
    assert |NatToString(i + 1)| == |NatToString(j + 1)|;
    assert a[n..|a| - |fmt| - 1] == NatToString(i + 1);
    assert b[n..|b| - |fmt| - 1] == NatToString(j + 1);
    NatToStringInjective(i + 1, j + 1);
  }

  /** A page name is a single ordinary path component when neither the stem
      nor the format holds a '/'. */
  lemma ImageNameOrdinary(stem: string, k: nat, fmt: string)
    requires '/' !in stem && '/' !in fmt
    ensures IsOrdinary(ImageName(stem, k, fmt))
  {
    var d := NatToString(k + 1);
    var m := ImageName(stem, k, fmt);
    assert '/' !in d by {
      forall i | 0 <= i < |d| ensures d[i] != '/' { assert IsDigit(d[i]); }
    }
    assert forall i :: 0 <= i < |m| ==> m[i] != '/' by {
      forall i | 0 <= i < |m| ensures m[i] != '/' {
        if i < |stem| { assert m[i] == stem[i]; }
        else if i < |stem| + 6 { assert m[i] == "_page_"[i - |stem|]; }
        else if i < |stem| + 6 + |d| { assert m[i] == d[i - |stem| - 6]; }
        else if i == |stem| + 6 + |d| { assert m[i] == '.'; }
        else { assert m[i] == fmt[i - |stem| - 7 - |d|]; }
      }
    }
  }

  /** No page image takes the name of the document it was rendered from: the
      name after the stem is "_page_...", never empty nor a dot-suffix. */
  lemma ImageNameNotUpload(name: string, k: nat, fmt: string)
    ensures ImageName(Stem(name), k, fmt) != name
  {
    StemSuffix(name);
    var m := ImageName(Stem(name), k, fmt);
    assert m[|Stem(name)|] == '_';
    if |name| > |Stem(name)| {
      assert name[|Stem(name)|] == Suffix(name)[0];
    }
  }

  /** Every path is an entry named directly inside `dir`. */
  ghost predicate ChildrenOf(dir: Path, ps: seq<RawPath>)
  {
    forall i :: 0 <= i < |ps| ==> |ps[i]| == |dir| + 1 && ps[i][..|dir|] == dir && IsOrdinary(ps[i][|dir|])
  }

  /** Writing files directly into an existing directory keeps the file system
      well formed, keeps the directory, and leaves every other entry as it was. */
  lemma {:induction false} WriteAllKeeps(fs: FS, dir: Path, ps: seq<RawPath>, imgs: seq<Bytes>, q: Path)
    requires |ps| == |imgs|
    requires Valid(fs) && IsDirAt(fs, dir) && ChildrenOf(dir, ps)
    requires q in fs && q !in ps
    requires WriteAll(fs, ps, imgs).r.Ok?
    ensures var s := WriteAll(fs, ps, imgs);
            Valid(s.fs) && IsDirAt(s.fs, dir) && q in s.fs && s.fs[q] == fs[q]
    decreases |ps|
  {
    if |ps| > 0 {
      var p: Path := dir + [ps[0][|dir|]];
      assert ps[0] == p;
      assert Parent(p) == dir;
      WalkOfNormal(fs, dir);
      assert Locate(fs, p) == Some(p);
      WriteNormal(fs, p, imgs[0]);
      var fs1 := fs[p := File(imgs[0])];
      assert ChildrenOf(dir, ps[1..]) by {
        forall i | 0 <= i < |ps| - 1
          ensures |ps[1..][i]| == |dir| + 1 && ps[1..][i][..|dir|] == dir && IsOrdinary(ps[1..][i][|dir|])
        {
          assert ps[1..][i] == ps[i + 1];
        }
      }
      assert q !in ps[1..];
      WriteAllKeeps(fs1, dir, ps[1..], imgs[1..], q);
    }
  }

  /** Writing files with distinct names directly into an existing directory
      leaves each of them holding its own bytes. */
  lemma {:induction false} WriteAllHolds(fs: FS, dir: Path, ps: seq<Path>, imgs: seq<Bytes>)
    requires |ps| == |imgs|
    requires Valid(fs) && IsDirAt(fs, dir) && ChildrenOf(dir, ps)
    requires forall i, j :: 0 <= i < j < |ps| ==> ps[i] != ps[j]
    requires WriteAll(fs, ps, imgs).r.Ok?
    ensures var s := WriteAll(fs, ps, imgs);
            forall i :: 0 <= i < |ps| ==> ps[i] in s.fs && s.fs[ps[i]] == File(imgs[i])
    decreases |ps|
  {
    if |ps| > 0 {
      var p: Path := dir + [ps[0][|dir|]];
      assert ps[0] == p;
      assert Parent(p) == dir;
      WalkOfNormal(fs, dir);
      assert Locate(fs, p) == Some(p);
      WriteNormal(fs, p, imgs[0]);
      var fs1 := fs[p := File(imgs[0])];
      assert ChildrenOf(dir, ps[1..]) by {
        forall i | 0 <= i < |ps| - 1
          ensures |ps[1..][i]| == |dir| + 1 && ps[1..][i][..|dir|] == dir && IsOrdinary(ps[1..][i][|dir|])
        {
          assert ps[1..][i] == ps[i + 1];
        }
      }
      assert p !in ps[1..] by {
        forall i | 0 <= i < |ps| - 1 ensures ps[1..][i] != p { assert ps[1..][i] == ps[i + 1]; }
      }
      WriteAllKeeps(fs1, dir, ps[1..], imgs[1..], p);
      WriteAllHolds(fs1, dir, ps[1..], imgs[1..]);
      forall i | 1 <= i < |ps|
        ensures ps[i] == ps[1..][i - 1] && imgs[i] == imgs[1..][i - 1]
      {
      }
    }
  }

  /** Rendering the pages of `dir/name` into `dir` keeps that document: every
      page image gets a name of its own, different from the document's. */
  lemma PdfToImagesKeepsInput(lib: ConvLib, fs: FS, dir: Path, name: Name, fmt: string)
    requires Valid(fs) && IsDirAt(fs, dir) && '/' !in fmt
    requires dir + [name] in fs
    requires ConvertPdfToImagesLib(lib, fs, Join(dir, name), dir, fmt).r.Ok?
    ensures var s := ConvertPdfToImagesLib(lib, fs, Join(dir, name), dir, fmt);
            Valid(s.fs) && IsDirAt(s.fs, dir) && dir + [name] in s.fs && s.fs[dir + [name]] == fs[dir + [name]]
  {
    JoinOrdinaryWithin(dir, name);
    var pdf: Path := dir + [name];
    assert NameOf(pdf) == name;
    var stem := Stem(name);
    StemSuffix(name);
    assert '/' !in stem by {
      forall i | 0 <= i < |stem| ensures stem[i] != '/' { assert stem[i] == name[i]; }
    }
    var imgs := lib.rasterize(Read(fs, pdf).value, fmt).value;
    var ps := ImagePaths(dir, stem, fmt, |imgs|);
    forall i | 0 <= i < |ps|
      ensures |ps[i]| == |dir| + 1 && ps[i][..|dir|] == dir && IsOrdinary(ps[i][|dir|])
      ensures ps[i] != pdf
    {
      ImageNameOrdinary(stem, i, fmt);
      JoinOrdinaryWithin(dir, ImageName(stem, i, fmt));
      ImageNameNotUpload(name, i, fmt);
    }
    WriteAllKeeps(fs, dir, ps, imgs, pdf);
  }

  /** The stem of a single path component holds no '/'. */
  lemma StemNoSlash(name: Name)
    ensures '/' !in Stem(name)
  {
    StemSuffix(name);
    forall i | 0 <= i < |Stem(name)| ensures Stem(name)[i] != '/' { assert Stem(name)[i] == name[i]; }
  }

  /** Rendering the pages of `dir/name` into `dir` leaves page k's image,
      exactly as the library rendered it, at `<stem>_page_<k+1>.<fmt>`. */
  lemma PdfToImagesWritesPages(lib: ConvLib, fs: FS, dir: Path, name: Name, fmt: string)
    requires Valid(fs) && IsDirAt(fs, dir) && '/' !in fmt
    requires dir + [name] in fs
    requires ConvertPdfToImagesLib(lib, fs, Join(dir, name), dir, fmt).r.Ok?
    ensures Read(fs, Join(dir, name)).Ok? && lib.rasterize(Read(fs, Join(dir, name)).value, fmt).Ok?
    ensures var pages := lib.rasterize(Read(fs, Join(dir, name)).value, fmt).value;
            var s := ConvertPdfToImagesLib(lib, fs, Join(dir, name), dir, fmt);
            forall k :: 0 <= k < |pages| ==> Read(s.fs, Join(dir, ImageName(Stem(name), k, fmt))) == Ok(pages[k])
  {
    PdfToImagesKeepsInput(lib, fs, dir, name, fmt);
    JoinOrdinaryWithin(dir, name);
    var pdf: Path := dir + [name];
    assert NameOf(pdf) == name;
    var stem := Stem(name);
    StemNoSlash(name);
    var imgs := lib.rasterize(Read(fs, pdf).value, fmt).value;
    var qs := ImagePathsIn(dir, stem, fmt, |imgs|);
    WriteAllHolds(fs, dir, qs, imgs);
    var s := WriteAll(fs, qs, imgs);
    forall k | 0 <= k < |imgs|
      ensures Read(s.fs, Join(dir, ImageName(stem, k, fmt))) == Ok(imgs[k])
    {
      ReadNormal(s.fs, qs[k]);
    }
  }

  /** The page paths of `ImagePaths` as normal paths directly inside `dir`,
      each different from the others. */
  lemma ImagePathsIn(dir: Path, stem: string, fmt: string, n: nat) returns (qs: seq<Path>)
    requires '/' !in stem && '/' !in fmt
    ensures qs == ImagePaths(dir, stem, fmt, n)
    ensures ChildrenOf(dir, qs)
    ensures forall i, j :: 0 <= i < j < |qs| ==> qs[i] != qs[j]
  {
    var ps := ImagePaths(dir, stem, fmt, n);
    forall i | 0 <= i < n
      ensures IsOrdinary(ImageName(stem, i, fmt)) && ps[i] == dir + [ImageName(stem, i, fmt)]
    {
      ImageNameOrdinary(stem, i, fmt);
      JoinOrdinaryWithin(dir, ImageName(stem, i, fmt));
    }
    qs := seq(n, i requires 0 <= i < n => var q: Path := dir + [ImageName(stem, i, fmt)]; q);
    assert qs == ps;
    forall i, j | 0 <= i < j < n
      ensures qs[i] != qs[j]
    {
      if qs[i] == qs[j] {
        assert qs[i][|dir|] == ImageName(stem, i, fmt);
        assert qs[j][|dir|] == ImageName(stem, j, fmt);
        ImageNamesDistinct(stem, fmt, i, j);
      }
    }
  }

  /** `Image.open(p).convert('RGB')` for each path, in order. */
  function OpenImages(lib: ConvLib, fs: FS, paths: seq<RawPath>): (r: Result<seq<Picture>, Exc>)
    ensures r.Ok? ==> Decoded(lib, fs, paths, r.value)
  {
    if |paths| == 0 then Ok([])
    else
      match Read(fs, paths[0])
      case Err(e) => Err(e)
      case Ok(data) =>
        match lib.openImage(data)
        case Err(e) => Err(e)
        case Ok(img) =>
          match OpenImages(lib, fs, paths[1..])
          case Err(e) => Err(e)
          case Ok(rest) => Ok([img] + rest)
  }

  /** Picture i is what Pillow makes of the file at path i. */
  predicate Decoded(lib: ConvLib, fs: FS, paths: seq<RawPath>, pics: seq<Picture>)
  {
    && |pics| == |paths|
    && forall i :: 0 <= i < |paths| ==> Read(fs, paths[i]).Ok? && lib.openImage(Read(fs, paths[i]).value) == Ok(pics[i])
  }

  function NoImages(): Exc { Exc(ValueError, "No images provided for PDF conversion.") }

  // ---------------------------------------------------------------- Pillow's save

  predicate AllDots(s: string)
  {
    forall j :: 0 <= j < |s| ==> s[j] == '.'
  }

  /** `os.path.splitext(name)[1]` of a final component: from the last dot,
      provided some character before that dot is not a dot. */
  function SplitExt(name: string): string
  {
    var i := LastDot(name);
    if i > 0 && !AllDots(name[..i]) then name[i..] else ""
  }

  /** The extension is empty or a dot followed by dot-free text; it ends the
      name and is never all of it. A name without a dot, or one whose only
      dots lead it, has none. */
  lemma SplitExtSpec(name: string)
    ensures var e := SplitExt(name);
            && (e == "" || (e[0] == '.' && '.' !in e[1..] && |e| < |name| && EndsWith(name, e)))
            && ('.' !in name ==> e == "")
            && (AllDots(name[..LastDot(name) + 1]) ==> e == "")
  {
    var i := LastDot(name);
    if '.' in name {
      var k :| 0 <= k < |name| && name[k] == '.';
      assert LastDot(name) >= k;
    }
    if i > 0 && !AllDots(name[..i]) {
      var e := name[i..];
      forall j | 0 <= j < |e[1..]| ensures e[1..][j] != '.' { assert e[1..][j] == name[i + 1 + j]; }
      if AllDots(name[..i + 1]) {
        assert forall j :: 0 <= j < i ==> name[..i][j] == name[..i + 1][j];
      }
    }
  }

  /** The extension Pillow looks the writer up by:
      `os.path.splitext(filename)[1].lower()` of the output path. */
  function SaveExt(out: RawPath): string
  {
    Lower(SplitExt(NameOf(out)))
  }

  function UnknownExtension(ext: string): Exc { Exc(ValueError, "unknown file extension: " + ext) }

  /** Every key of Pillow's registry is a dot followed by text. */
  predicate PillowRegistry(lib: ConvLib)
  {
    forall e :: e in lib.formats ==> |e| >= 2 && e[0] == '.'
  }

  /** The key Pillow files the format's writers under: the format upper-cased. */
  function SaveFormat(lib: ConvLib, out: RawPath): string
    requires SaveExt(out) in lib.formats
  {
    Upper(lib.formats[SaveExt(out)])
  }

  /** `SAVE_ALL[key]` for a format without a multi-frame writer: a `KeyError`,
      whose text is the key's `repr`. */
  function NoSaveAll(key: string): Exc { Exc(KeyError, "'" + key + "'") }

  /** `images[0].save(str(out), save_all=True, append_images=images[1:])`.
      Pillow first looks the format up by the path's extension and refuses an
      extension it does not know; then it looks up the format's multi-frame
      writer, a `KeyError` when there is none; only then does it open the
      file (`"w+b"`), which may fail with the file system's error, and run
      the writer. When the writer fails, Pillow removes the file if it
      created it, and leaves a file that was already there truncated. */
  function SavePictures(lib: ConvLib, fs: FS, pics: seq<Picture>, out: RawPath): (s: Step<RawPath>)
    ensures SaveExt(out) !in lib.formats ==> s == Step(fs, Err(UnknownExtension(SaveExt(out))))
    ensures SaveExt(out) in lib.formats && SaveFormat(lib, out) !in lib.saveAll
            ==> s == Step(fs, Err(NoSaveAll(SaveFormat(lib, out))))
    ensures SaveExt(out) in lib.formats && SaveFormat(lib, out) in lib.saveAll && WriteFile(fs, out, []).Err?
            ==> s == Step(fs, Err(WriteFile(fs, out, []).error))
    ensures s.r.Ok? <==> SaveExt(out) in lib.formats && SaveFormat(lib, out) in lib.saveAll && WriteFile(fs, out, []).Ok?
                         && lib.saveImages(pics, lib.formats[SaveExt(out)]).Ok?
    ensures s.r.Ok? ==> s.r.value == out && Read(s.fs, out).Ok? && PillowWrote(lib, pics, out, Read(s.fs, out).value)
    ensures s.r.Err? && !Exists(fs, out) ==> s.fs == fs
  {
    var ext := SaveExt(out);
    if ext !in lib.formats then Step(fs, Err(UnknownExtension(ext)))
    else if SaveFormat(lib, out) !in lib.saveAll then Step(fs, Err(NoSaveAll(SaveFormat(lib, out))))
    else
      match WriteFile(fs, out, [])
      case Err(e) => Step(fs, Err(e))
      case Ok(truncated) =>
        match lib.saveImages(pics, lib.formats[ext])
        case Err(e) => Step(if Exists(fs, out) then truncated else fs, Err(e))
        case Ok(data) =>
          var fs1 := fs[Locate(fs, out).value := File(data)];
          assert WriteFile(fs, out, data) == Ok(fs1);
          assert Read(fs1, out) == Ok(data) by { ReadAfterWrite(fs, out, data); }
          Step(fs1, Ok(out))
  }

  /** `data` is what Pillow's multi-frame writer, chosen by the extension of
      `out`, makes of the pictures. */
  predicate PillowWrote(lib: ConvLib, pics: seq<Picture>, out: RawPath, data: Bytes)
  {
    && SaveExt(out) in lib.formats && SaveFormat(lib, out) in lib.saveAll
    && lib.saveImages(pics, lib.formats[SaveExt(out)]) == Ok(data)
  }

  /** An output name without an extension, such as "scan", is refused before
      anything is written: "unknown file extension: ". */
  lemma NoExtensionRefused(lib: ConvLib, fs: FS, pics: seq<Picture>, out: RawPath)
    requires PillowRegistry(lib) && '.' !in NameOf(out)
    ensures SavePictures(lib, fs, pics, out) == Step(fs, Err(UnknownExtension("")))
  {
    SplitExtSpec(NameOf(out));
    assert SaveExt(out) == "";
  }

  /** `convert_images_to_pdf_lib`: a `ValueError` for no images; otherwise
      every image is opened, in the order given, and Pillow saves them as one
      document whose format the output path's extension chooses. */
  function ConvertImagesToPdfLib(lib: ConvLib, fs: FS, paths: seq<RawPath>, out: RawPath): (s: Step<RawPath>)
    ensures |paths| == 0 ==> s == Step(fs, Err(NoImages()))
    ensures |paths| > 0 && OpenImages(lib, fs, paths).Err? ==> s == Step(fs, Err(OpenImages(lib, fs, paths).error))
    ensures |paths| > 0 && OpenImages(lib, fs, paths).Ok? ==> s == SavePictures(lib, fs, OpenImages(lib, fs, paths).value, out)
    ensures s.r.Ok? ==> s.r.value == out && OpenImages(lib, fs, paths).Ok?
  {
    if |paths| == 0 then Step(fs, Err(NoImages()))
    else
      match OpenImages(lib, fs, paths)
      case Err(e) => Step(fs, Err(e))
      case Ok(imgs) => SavePictures(lib, fs, imgs, out)
  }

  /** The text `convert_pdf_to_text_lib` accumulates: every page's text
      followed by a newline. */
  function PagesText(texts: seq<string>): string
  {
    if |texts| == 0 then "" else texts[0] + "\n" + PagesText(texts[1..])
  }

  /** The accumulated text is the pages joined by newlines, with one more
      newline at the end (none at all for a document without pages). */
  lemma {:induction false} PagesTextJoin(texts: seq<string>)
    ensures PagesText(texts) == JoinWith(texts + [""], "\n")
  {
    if |texts| > 0 {
      PagesTextJoin(texts[1..]);
      assert (texts + [""])[1..] == texts[1..] + [""];
    }
  }

  /** When no page text holds a newline, splitting the output on newlines gives
      the pages back, followed by one empty piece. */
  lemma PagesTextSplits(texts: seq<string>)
    requires forall i :: 0 <= i < |texts| ==> '\n' !in texts[i]
    ensures Split(PagesText(texts), '\n') == texts + [""]
  {
    PagesTextJoin(texts);
    var parts := texts + [""];
    assert forall i :: 0 <= i < |parts| ==> '\n' !in parts[i] by {
      forall i | 0 <= i < |parts| ensures '\n' !in parts[i] {
        if i < |texts| { assert parts[i] == texts[i]; }
      }
    }
    JoinSplit(parts, '\n');
  }

  /** `convert_pdf_to_text_lib`: read the pages' text and write it, encoded. */
  function ConvertPdfToTextLib(lib: ConvLib, fs: FS, pdf: RawPath, out: RawPath): (s: Step<RawPath>)
    ensures s.r.Ok? ==> s.r.value == out && Read(fs, pdf).Ok? && lib.pageTexts(Read(fs, pdf).value).Ok?
    ensures s.r.Ok? ==> Read(s.fs, out) == Ok(lib.encode(PagesText(lib.pageTexts(Read(fs, pdf).value).value)))
  {
    match Read(fs, pdf)
    case Err(e) => Step(fs, Err(e))
    case Ok(data) =>
      match lib.pageTexts(data)
      case Err(e) => Step(fs, Err(e))
      case Ok(texts) =>
        var bytes := lib.encode(PagesText(texts));
        match WriteFile(fs, out, bytes)
        case Err(e) => Step(fs, Err(e))
        case Ok(fs1) =>
          assert Read(fs1, out) == Ok(bytes) by { ReadAfterWrite(fs, out, bytes); }
          Step(fs1, Ok(out))
  }

  /** `convert_text_to_pdf_lib`: the decoded text, split on '\n', laid out by
      the text layout and rendered into the output file. */
  function ConvertTextToPdfLib(lib: ConvLib, fs: FS, txt: RawPath, out: RawPath): (s: Step<RawPath>)
    ensures s.r.Ok? ==> s.r.value == out && Read(fs, txt).Ok? && lib.decode(Read(fs, txt).value).Ok?
    ensures s.r.Ok? ==>
              Read(s.fs, out) == Ok(lib.renderText(TextLayout(Split(lib.decode(Read(fs, txt).value).value, '\n'))))
  {
    match Read(fs, txt)
    case Err(e) => Step(fs, Err(e))
    case Ok(data) =>
      match lib.decode(data)
      case Err(e) => Step(fs, Err(e))
      case Ok(text) =>
        var bytes := lib.renderText(TextLayout(Split(text, '\n')));
        match WriteFile(fs, out, bytes)
        case Err(e) => Step(fs, Err(e))
        case Ok(fs1) =>
          assert Read(fs1, out) == Ok(bytes) by { ReadAfterWrite(fs, out, bytes); }
          Step(fs1, Ok(out))
  }

  /** `convert_csv_to_pdf_lib`: the table pandas reads, laid out by the table
      layout and rendered into the output file. */
  function ConvertCsvToPdfLib(lib: ConvLib, fs: FS, csv: RawPath, out: RawPath): (s: Step<RawPath>)
    ensures s.r.Ok? ==> s.r.value == out && Read(fs, csv).Ok? && lib.readCsv(Read(fs, csv).value).Ok?
    ensures s.r.Ok? ==> Read(s.fs, out) == Ok(lib.renderTable(CsvLayout(lib.readCsv(Read(fs, csv).value).value)))
  {
    match Read(fs, csv)
    case Err(e) => Step(fs, Err(e))
    case Ok(data) =>
      match lib.readCsv(data)
      case Err(e) => Step(fs, Err(e))
      case Ok(t) =>
        var bytes := lib.renderTable(CsvLayout(t));
        match WriteFile(fs, out, bytes)
        case Err(e) => Step(fs, Err(e))
        case Ok(fs1) =>
          assert Read(fs1, out) == Ok(bytes) by { ReadAfterWrite(fs, out, bytes); }
          Step(fs1, Ok(out))
  }

  // ---------------------------------------------------------------- zip of a directory

  /** `PurePath.with_suffix(suf)`: the last name's stem with the new suffix.
      The only path without a name is the root, and `with_suffix` refuses it
      with a `ValueError` naming it by its `repr`. */
  function WithSuffix(p: RawPath, suf: string): Result<RawPath, Exc>
  {
    if |p| == 0 then Err(Exc(ValueError, "PosixPath('/') has an empty name"))
    else Ok(Parent(p) + [Stem(NameOf(p)) + suf])
  }

  /** `shutil.make_archive` as an oracle pair: the archive format and the
      order in which `os.walk` visits the entries below a directory. */
  datatype Packer = Packer(zip: ZipLib, walk: (FS, Path) -> seq<Path>)

  /** The walk visits every entry strictly below the directory and nothing else. */
  ghost predicate WalksTree(packer: Packer)
  {
    forall fs: FS, d: Path, q: Path :: q in packer.walk(fs, d) <==> q in fs && d < q
  }

  /** A member's name: its path relative to the archived directory. */
  function RelName(q: Path, d: Path): string
    requires d <= q
  {
    JoinWith(q[|d|..], "/")
  }

  /** One entry per file the walk visits, named by its relative path. */
  function TreeEntries(fs: FS, d: Path, qs: seq<Path>): Zip
  {
    if |qs| == 0 then []
    else
      var rest := TreeEntries(fs, d, qs[1..]);
      if qs[0] in fs && fs[qs[0]].File? && d < qs[0] then [Entry(RelName(qs[0], d), fs[qs[0]].data)] + rest
      else rest
  }

  /** Where `make_archive` writes: `os.path.dirname(base)`, made with
      `os.makedirs` when it does not exist. */
  function ArchiveDir(fs: FS, dir: RawPath): (s: Step<RawPath>)
    ensures Grows(fs, s.fs)
    ensures Exists(fs, dir) ==> s == Step(fs, Ok(dir))
  {
    if Exists(fs, dir) then Step(fs, Ok(dir)) else OsMakedirs(fs, dir)
  }

  /** `shutil.make_archive(base, 'zip', d)`: makes the archive's directory if
      it is missing, then writes `base + ".zip"`, holding every file below `d`. */
  function MakeArchive(packer: Packer, fs: FS, base: RawPath, d: Path): (s: Step<RawPath>)
    requires |base| > 0
  {
    var target := Parent(base) + [NameOf(base) + ".zip"];
    var ready := ArchiveDir(fs, Parent(base));
    match ready.r
    case Err(e) => Step(ready.fs, Err(e))
    case Ok(_) =>
      var fs0 := ready.fs;
      var bytes := packer.zip.serialize(TreeEntries(fs0, d, packer.walk(fs0, d)));
      match WriteFile(fs0, target, bytes)
      case Err(e) => Step(fs0, Err(e))
      case Ok(fs1) => Step(fs1, Ok(target))
  }

  /** Every file below the directory that the walk visits becomes an entry. */
  lemma {:induction false} TreeEntriesHold(fs: FS, d: Path, qs: seq<Path>, q: Path)
    requires q in qs && q in fs && fs[q].File? && d < q
    ensures Entry(RelName(q, d), fs[q].data) in TreeEntries(fs, d, qs)
    decreases |qs|
  {
    if qs[0] != q {
      TreeEntriesHold(fs, d, qs[1..], q);
    }
  }

  /** `make_archive` writes the archive exactly where `pdf_to_images` later
      looks for it: stripping the suffix and adding ".zip" to the name gives
      `with_suffix(".zip")` for every name. A failure to make the archive's
      directory is passed on, with the directories made so far left behind.
      The archive holds an entry, named by the bare name, for each file
      directly inside the directory. */
  lemma MakeArchiveSpec(packer: Packer, fs: FS, zipPath: RawPath, d: Path, n: Name)
    requires |zipPath| > 0
    requires WalksTree(packer)
    ensures var base := WithSuffix(zipPath, "").value;
            var s := MakeArchive(packer, fs, base, d);
            var ready := ArchiveDir(fs, Parent(zipPath));
            && (ready.r.Err? ==> s == Step(ready.fs, Err(ready.r.error)))
            && (s.r.Ok? ==> WithSuffix(zipPath, ".zip") == Ok(s.r.value))
            && (s.r.Ok? ==> Read(s.fs, s.r.value) == Ok(packer.zip.serialize(TreeEntries(ready.fs, d, packer.walk(ready.fs, d)))))
            && (d + [n] in fs && fs[d + [n]].File? ==>
                  Entry(n, fs[d + [n]].data) in TreeEntries(ready.fs, d, packer.walk(ready.fs, d)))
  {
    var base := WithSuffix(zipPath, "").value;
    var s := MakeArchive(packer, fs, base, d);
    var target := Parent(base) + [NameOf(base) + ".zip"];
    assert NameOf(base) == Stem(NameOf(zipPath)) + "" == Stem(NameOf(zipPath));
    assert Parent(base) == Parent(zipPath);
    var ready := ArchiveDir(fs, Parent(zipPath));
    var fs0 := ready.fs;
    if s.r.Ok? {
      ReadAfterWrite(fs0, target, packer.zip.serialize(TreeEntries(fs0, d, packer.walk(fs0, d))));
    }
    var q: Path := d + [n];
    if q in fs && fs[q].File? {
      assert q in packer.walk(fs0, d);
      assert q[|d|..] == [n];
      TreeEntriesHold(fs0, d, packer.walk(fs0, d), q);
    }
  }

  /** `make_archive` into a directory that does not exist yet, inside an
      existing directory, makes that directory and writes the archive there. */
  lemma MakeArchiveCreatesDir(packer: Packer, fs: FS, d0: Path, sub: Name, x: Name, d: Path)
    requires Valid(fs) && IsDirAt(fs, d0) && d0 + [sub] !in fs
    ensures var q := d0 + [sub];
            var s := MakeArchive(packer, fs, q + [x], d);
            && s.r == Ok(q + [x + ".zip"])
            && IsDirAt(s.fs, q)
            && Read(s.fs, q + [x + ".zip"]) == Ok(packer.zip.serialize(TreeEntries(fs[q := Dir], d, packer.walk(fs[q := Dir], d))))
  {
    var q: Path := d0 + [sub];
    var fs0 := fs[q := Dir];
    assert Valid(fs0) && ArchiveDir(fs, q) == Step(fs0, Ok(q)) by {
      assert Parent(q) == d0;
      WalkOfNormal(fs, q);
      OsMakedirsOneLevel(fs, q);
    }
    ZipNameOrdinary(x);
    var z: Path := q + [x + ".zip"];
    var bytes := packer.zip.serialize(TreeEntries(fs0, d, packer.walk(fs0, d)));
    assert WriteFile(fs0, z, bytes) == Ok(fs0[z := File(bytes)]) by {
      assert Parent(z) == q;
      WriteNormal(fs0, z, bytes);
    }
    assert Parent(q + [x]) == q && NameOf(q + [x]) == x;
    assert MakeArchive(packer, fs, q + [x], d) == Step(fs0[z := File(bytes)], Ok(z));
    ReadNormal(fs0[z := File(bytes)], z);
  }

  /** The archive's name: an ordinary name followed by ".zip" is ordinary. */
  lemma ZipNameOrdinary(x: Name)
    ensures IsOrdinary(x + ".zip")
  {
    var zname := x + ".zip";
    assert forall i :: 0 <= i < |zname| ==> zname[i] == if i < |x| then x[i] else ".zip"[i - |x|];
  }
}
