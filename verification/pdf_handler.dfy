/** The page algebra of `app/services/pdf_handler.py`: merge, split (with its
    page-spec parser), redact, metadata scrub and form fill, as operations on
    the page sequences of documents. PyPDF2 and PyMuPDF are the `PdfLib`
    oracle. */
module PdfHandler {
  import opened Wrappers
  import opened Errors
  import opened PyStr
  import opened PyPath
  import opened FileSystem
  import opened JsonValue

  /** A page is opaque: only the libraries look inside. */
  datatype Page = Page(data: Bytes)

  /** A parsed document: its pages and its document-information dictionary. */
  datatype PdfDoc = PdfDoc(pages: seq<Page>, info: map<string, string>)

  /** An exception a PDF library raises: its class and its message (a
      `PdfReadError` for bytes that are not a PDF, a `DependencyError` for an
      encrypted file whose cipher needs a missing package, ...). */
  datatype Raised = Raised(kind: Kind, msg: string)

  /** The PDF libraries as an oracle. `read` is `PdfReader` / `fitz.open`
      (or what it raises); `save` writes a document; a fresh `PdfWriter`
      writes `writerInfo` as its document information; `redact` is one page's
      search, annotate and apply step (or what the library raises); `fill`
      sets form values on a page; `flatten` flattens a writer's forms. */
  datatype PdfLib = PdfLib(
    read: Bytes -> Result<PdfDoc, Raised>,
    save: PdfDoc -> Bytes,
    writerInfo: map<string, string>,
    redact: (Page, seq<Json>) -> Result<Page, Raised>,
    fill: (Page, map<string, Json>) -> Page,
    flatten: seq<Page> -> seq<Page>)

  /** The oracle reads back what it saves. */
  ghost predicate SavesFaithfully(lib: PdfLib)
  {
    forall d :: lib.read(lib.save(d)) == Ok(d)
  }

  /** What a fresh `PdfWriter` holding `pages` writes. */
  function Written(lib: PdfLib, pages: seq<Page>): Bytes
  {
    lib.save(PdfDoc(pages, lib.writerInfo))
  }

  /** Opening a document: the file's bytes (an operating-system error passes
      through) parsed by the library (whatever it raises passes through). */
  function Open(lib: PdfLib, fs: FS, p: RawPath): Result<PdfDoc, Exc>
  {
    match Read(fs, p)
    case Err(e) => Err(e)
    case Ok(b) =>
      match lib.read(b)
      case Err(x) => Err(Exc(x.kind, x.msg))
      case Ok(d) => Ok(d)
  }

  function NotFound(what: string, p: RawPath): Exc
  {
    Exc(FileNotFoundError, what + Render(p))
  }

  function CorruptPdf(p: RawPath): Exc
  {
    Exc(PdfReadError, "Error reading PDF file: " + Render(p) + ". It might be corrupted or encrypted.")
  }


  // ---------------------------------------------------------------- merge

  /** The pages of the inputs, in order; the first input that is missing or
      unreadable stops the loop. */
  function CollectPages(lib: PdfLib, fs: FS, inputs: seq<RawPath>): (r: Result<seq<Page>, Exc>)
    ensures r.Err? ==> r.error.Exc?
    ensures r.Ok? ==> forall i :: 0 <= i < |inputs| ==> Exists(fs, inputs[i])
  {
    if |inputs| == 0 then Ok([])
    else
      var p := inputs[0];
      if !Exists(fs, p) then Err(NotFound("Input PDF file not found: ", p))
      else
        match Open(lib, fs, p)
        case Err(e) =>
          if e.Exc? && e.kind == PdfReadError then Err(CorruptPdf(p))
          else Err(Exc(Exception, "An unexpected error occurred while processing " + Render(p) + ": " + Text(e)))
        case Ok(d) =>
          match CollectPages(lib, fs, inputs[1..])
          case Err(e) => Err(e)
          case Ok(rest) => Ok(d.pages + rest)
  }

  /** `merge_pdfs(inputs, out)`: all inputs are read before the output is
      written, so any failure leaves the file system as it was. */
  function MergePdfs(lib: PdfLib, fs: FS, inputs: seq<RawPath>, out: RawPath): (s: Step<RawPath>)
    ensures s.r.Err? ==> s.r.error.Exc?
    ensures s.r.Err? ==> s.fs == fs
    ensures s.r.Ok? ==> s.r.value == out && CollectPages(lib, fs, inputs).Ok?
    ensures s.r.Ok? ==> Read(s.fs, out) == Ok(Written(lib, CollectPages(lib, fs, inputs).value))
  {
    match CollectPages(lib, fs, inputs)
    case Err(e) => Step(fs, Err(e))
    case Ok(pages) =>
      match WriteFile(fs, out, Written(lib, pages))
      case Err(e) => Step(fs, Err(Exc(Exception, "Error writing merged PDF to " + Render(out) + ": " + Text(e))))
      case Ok(fs') =>
        ReadAfterWrite(fs, out, Written(lib, pages));
        Step(fs', Ok(out))
  }

  /** The pages of several documents, one after the other. */
  function ConcatPages(docs: seq<PdfDoc>): seq<Page>
  {
    if |docs| == 0 then [] else docs[0].pages + ConcatPages(docs[1..])
  }

  /** Input `i` is an existing file that parses as `docs[i]`. */
  predicate Readable(lib: PdfLib, fs: FS, inputs: seq<RawPath>, docs: seq<PdfDoc>)
  {
    && |inputs| == |docs|
    && forall i :: 0 <= i < |inputs| ==> Exists(fs, inputs[i]) && Open(lib, fs, inputs[i]) == Ok(docs[i])
  }

  lemma ReadableTail(lib: PdfLib, fs: FS, inputs: seq<RawPath>, docs: seq<PdfDoc>)
    requires |inputs| > 0 && Readable(lib, fs, inputs, docs)
    ensures Readable(lib, fs, inputs[1..], docs[1..])
  {
    forall i | 0 <= i < |inputs| - 1
      ensures Exists(fs, inputs[1..][i]) && Open(lib, fs, inputs[1..][i]) == Ok(docs[1..][i])
    {
      assert inputs[1..][i] == inputs[i + 1];
    }
  }

  /** The merged output holds the inputs' pages concatenated in input order. */
  lemma {:induction false} CollectPagesConcat(lib: PdfLib, fs: FS, inputs: seq<RawPath>, docs: seq<PdfDoc>)
    requires Readable(lib, fs, inputs, docs)
    ensures CollectPages(lib, fs, inputs) == Ok(ConcatPages(docs))
  {
    if |inputs| > 0 {
      ReadableTail(lib, fs, inputs, docs);
      CollectPagesConcat(lib, fs, inputs[1..], docs[1..]);
    }
  }

  /** Reading the merged file back gives the concatenated pages, under a fresh
      writer's document information. */
  lemma MergeReadsBack(lib: PdfLib, fs: FS, inputs: seq<RawPath>, docs: seq<PdfDoc>, out: RawPath)
    requires SavesFaithfully(lib)
    requires Readable(lib, fs, inputs, docs)
    requires MergePdfs(lib, fs, inputs, out).r.Ok?
    ensures var s := MergePdfs(lib, fs, inputs, out);
            && Read(s.fs, out).Ok?
            && lib.read(Read(s.fs, out).value) == Ok(PdfDoc(ConcatPages(docs), lib.writerInfo))
  {
    CollectPagesConcat(lib, fs, inputs, docs);
  }

  /** The first missing input stops the merge with `FileNotFoundError`, after
      the readable ones before it, and nothing is written. */
  lemma {:induction false} MergeFirstMissing(lib: PdfLib, fs: FS, inputs: seq<RawPath>, docs: seq<PdfDoc>, k: nat, out: RawPath)
    requires k < |inputs| && !Exists(fs, inputs[k])
    requires Readable(lib, fs, inputs[..k], docs)
    ensures CollectPages(lib, fs, inputs) == Err(NotFound("Input PDF file not found: ", inputs[k]))
    ensures MergePdfs(lib, fs, inputs, out) == Step(fs, Err(NotFound("Input PDF file not found: ", inputs[k])))
  {
    if k > 0 {
      assert inputs[1..][..k - 1] == inputs[..k][1..];
      ReadableTail(lib, fs, inputs[..k], docs);
      assert inputs[..k][0] == inputs[0];
      MergeFirstMissing(lib, fs, inputs[1..], docs[1..], k - 1, out);
    }
  }

  // ---------------------------------------------------------------- split

  /** An inclusive, 1-based page range. */
  datatype Range = Range(first: nat, last: nat)

  /** The range lies within a document of `total` pages. */
  predicate InDoc(r: Range, total: nat)
  {
    1 <= r.first <= r.last <= total
  }

  /** One trimmed part of a page spec: `a-b` (exactly one '-') or `n`. The
      error is the message of the `ValueError` the part raises. */
  function ParsePart(part: string, total: nat): (r: Result<Range, string>)
    ensures r.Ok? ==> InDoc(r.value, total)
  {
    var t := Strip(part);
    if '-' in t then
      var pieces := Split(t, '-');
      if |pieces| != 2 then Err("too many values to unpack (expected 2)")
      else
        match (ParseInt(pieces[0]), ParseInt(pieces[1]))
        case (Some(a), Some(b)) =>
          if 1 <= a <= total && 1 <= b <= total && a <= b then Ok(Range(a, b))
          else Err("Invalid page range format: " + t)
        case _ => Err("Invalid page range format: " + t)
    else
      match ParseInt(t)
      case Some(n) =>
        if 1 <= n <= total then Ok(Range(n, n)) else Err("Invalid page number format: " + t)
      case None => Err("Invalid page number format: " + t)
  }

  /** The whole spec, split on ',': every part is validated before any output
      is produced, and the first bad part is the error. */
  function ParseSpec(spec: string, total: nat): (r: Result<seq<Range>, string>)
    ensures r.Ok? ==> |r.value| == |Split(spec, ',')|
    ensures r.Ok? ==> forall i :: 0 <= i < |r.value| ==> InDoc(r.value[i], total)
  {
    ParseParts(Split(spec, ','), total)
  }

  function ParseParts(parts: seq<string>, total: nat): (r: Result<seq<Range>, string>)
    ensures r.Ok? ==> |r.value| == |parts|
    ensures r.Ok? ==> forall i :: 0 <= i < |r.value| ==> InDoc(r.value[i], total)
    ensures r.Ok? <==> forall i :: 0 <= i < |parts| ==> ParsePart(parts[i], total).Ok?
  {
    if |parts| == 0 then Ok([])
    else
      match ParsePart(parts[0], total)
      case Err(m) => Err(m)
      case Ok(r0) =>
        match ParseParts(parts[1..], total)
        case Err(m) => Err(m)
        case Ok(rest) =>
          assert forall i :: 1 <= i < |parts| ==> parts[i] == parts[1..][i - 1];
          Ok([r0] + rest)
  }

  /** The canonical text of a range: `n` for a single page, else `a-b`. */
  function RenderRange(r: Range): string
  {
    if r.first == r.last then NatToString(r.first) else NatToString(r.first) + "-" + NatToString(r.last)
  }

  function RenderRanges(rs: seq<Range>): (parts: seq<string>)
    ensures |parts| == |rs|
    ensures forall i :: 0 <= i < |rs| ==> parts[i] == RenderRange(rs[i])
  {
    if |rs| == 0 then [] else [RenderRange(rs[0])] + RenderRanges(rs[1..])
  }

  /** A page spec that selects `rs`: the canonical texts joined by ','. */
  function RenderSpec(rs: seq<Range>): string
  {
    JoinWith(RenderRanges(rs), ",")
  }

  lemma NoSepInNumber(n: nat, c: char)
    requires !IsDigit(c)
    ensures c !in NatToString(n)
  {
  }

  /** A range's canonical text parses back to the range. */
  lemma ParseRenderRange(r: Range, total: nat)
    requires InDoc(r, total)
    ensures ParsePart(RenderRange(r), total) == Ok(r)
  {
    if r.first == r.last {
      ParseRenderSingle(r.first, total);
    } else {
      ParseRenderSpan(r.first, r.last, total);
    }
  }

  /** A page number's text parses back to the single-page range. */
  lemma ParseRenderSingle(n: nat, total: nat)
    requires 1 <= n <= total
    ensures ParsePart(NatToString(n), total) == Ok(Range(n, n))
  {
    ParseIntOfNatToString(n);
    NoSepInNumber(n, '-');
    StripDigits(NatToString(n));
  }

  /** `a-b` parses back to the range from a to b. */
  lemma ParseRenderSpan(first: nat, last: nat, total: nat)
    requires 1 <= first <= last <= total
    ensures ParsePart(NatToString(first) + "-" + NatToString(last), total) == Ok(Range(first, last))
  {
    var a := NatToString(first);
    var b := NatToString(last);
    ParseIntOfNatToString(first);
    ParseIntOfNatToString(last);
    NoSepInNumber(first, '-');
    NoSepInNumber(last, '-');
    var t := a + "-" + b;
    StripSpan(a, b);
    assert t[|a|] == '-';
    SplitAfterSep(a, b, '-');
    SplitNoSep(b, '-');
    assert a + ['-'] + b == t;
  }

  /** Two numbers joined by a dash have no whitespace to strip. */
  lemma StripSpan(a: string, b: string)
    requires forall i :: 0 <= i < |a| ==> IsDigit(a[i])
    requires forall i :: 0 <= i < |b| ==> IsDigit(b[i])
    ensures Strip(a + "-" + b) == a + "-" + b
  {
    var t := a + "-" + b;
    forall i | 0 <= i < |t|
      ensures IsDigit(t[i]) || t[i] == '-'
    {
      if i < |a| {
        assert t[i] == a[i];
      } else if i > |a| {
        assert t[i] == b[i - |a| - 1];
      }
    }
    forall i | 0 <= i < |t|
      ensures !IsSpace(t[i])
    {
    }
    StripNoSpace(t);
  }

  /** Any list of in-range page ranges, written as a spec, parses back to
      itself: the parser accepts exactly what it is meant to accept and reads it
      in order. */
  lemma ParseRenderSpec(rs: seq<Range>, total: nat)
    requires |rs| > 0
    requires forall i :: 0 <= i < |rs| ==> InDoc(rs[i], total)
    ensures ParseSpec(RenderSpec(rs), total) == Ok(rs)
  {
    var parts := RenderRanges(rs);
    forall i | 0 <= i < |parts|
      ensures ',' !in parts[i]
    {
      NoSepInNumber(rs[i].first, ',');
      NoSepInNumber(rs[i].last, ',');
    }
    JoinSplit(parts, ',');
    forall i | 0 <= i < |parts|
      ensures ParsePart(parts[i], total) == Ok(rs[i])
    {
      ParseRenderRange(rs[i], total);
    }
    ParsePartsOfValid(parts, rs, total);
  }

  lemma {:induction false} ParsePartsOfValid(parts: seq<string>, rs: seq<Range>, total: nat)
    requires |parts| == |rs|
    requires forall i :: 0 <= i < |parts| ==> ParsePart(parts[i], total) == Ok(rs[i])
    ensures ParseParts(parts, total) == Ok(rs)
  {
    if |parts| > 0 {
      ParsePartsOfValid(parts[1..], rs[1..], total);
      assert [rs[0]] + rs[1..] == rs;
    }
  }

  /** An empty part is not a page number. */
  lemma EmptyPartRejected(total: nat)
    ensures ParsePart("", total) == Err("Invalid page number format: ")
  {
    assert Strip("") == "";
    assert !IsDigitLiteral("");
    assert "Invalid page number format: " + "" == "Invalid page number format: ";
  }

  /** A part with two '-' fails to unpack into a start and an end. */
  lemma TwoDashesRejected(total: nat)
    ensures ParsePart("1-2-3", total) == Err("too many values to unpack (expected 2)")
  {
    StripNoSpace("1-2-3");
    assert "1-2-3" == "1" + ['-'] + "2-3";
    SplitAfterSep("1", "2-3", '-');
    assert "2-3" == "2" + ['-'] + "3";
    SplitAfterSep("2", "3", '-');
    SplitNoSep("3", '-');
  }

  /** A reversed range is rejected even though both ends are pages. */
  lemma ReversedRangeRejected(total: nat)
    ensures ParsePart("3-1", total) == Err("Invalid page range format: 3-1")
  {
    StripNoSpace("3-1");
    assert "3-1" == "3" + ['-'] + "1";
    SplitAfterSep("3", "1", '-');
    SplitNoSep("1", '-');
    ParseIntOfDigits("3");
    ParseIntOfDigits("1");
    assert DigitsValue("3") == 3 && DigitsValue("1") == 1;
    assert "Invalid page range format: " + "3-1" == "Invalid page range format: 3-1";
  }

  /** A page past the end is rejected. */
  lemma PagePastEndRejected(total: nat)
    ensures ParsePart(NatToString(total + 1), total) == Err("Invalid page number format: " + NatToString(total + 1))
  {
    var t := NatToString(total + 1);
    StripDigits(t);
    ParseIntOfNatToString(total + 1);
    NoSepInNumber(total + 1, '-');
  }

  /** Output names: `{prefix}_{i}_{a}-{b}.pdf` in spec mode and `{prefix}_{i}.pdf`
      per page, with `i` counted from 1. */
  function RangeName(prefix: string, i: nat, r: Range): string
  {
    prefix + "_" + NatToString(i + 1) + "_" + NatToString(r.first) + "-" + NatToString(r.last) + ".pdf"
  }

  function PageName(prefix: string, i: nat): string
  {
    prefix + "_" + NatToString(i + 1) + ".pdf"
  }

  /** Per-page names are distinct: the number between the prefix and `.pdf`
      is the page's own. */
  lemma PageNamesDistinct(prefix: string, i: nat, j: nat)
    requires PageName(prefix, i) == PageName(prefix, j)
    ensures i == j
  {
    var a := NatToString(i + 1);
    var b := NatToString(j + 1);
    var n := PageName(prefix, i);
    assert |a| == |b|;
    assert a == n[|prefix| + 1..|prefix| + 1 + |a|];
    assert b == n[|prefix| + 1..|prefix| + 1 + |b|];
    NatToStringInjective(i + 1, j + 1);
  }

  /** One output file: where it goes and which pages it holds. */
  datatype Job = Job(path: RawPath, pages: seq<Page>)

  /** Pages `first..last` of a document, 1-based and inclusive. */
  function Select(pages: seq<Page>, r: Range): (sel: seq<Page>)
    requires InDoc(r, |pages|)
    ensures |sel| == r.last - r.first + 1
    ensures forall k :: 0 <= k < |sel| ==> sel[k] == pages[r.first - 1 + k]
  {
    pages[r.first - 1..r.last]
  }

  function RangeJobs(pages: seq<Page>, dir: Path, prefix: string, rs: seq<Range>): (js: seq<Job>)
    requires forall i :: 0 <= i < |rs| ==> InDoc(rs[i], |pages|)
    ensures |js| == |rs|
    ensures forall i :: 0 <= i < |rs| ==>
              js[i] == Job(Join(dir, RangeName(prefix, i, rs[i])), Select(pages, rs[i]))
  {
    seq(|rs|, i requires 0 <= i < |rs| && InDoc(rs[i], |pages|) =>
      Job(Join(dir, RangeName(prefix, i, rs[i])), Select(pages, rs[i])))
  }

  function PageJobs(pages: seq<Page>, dir: Path, prefix: string): (js: seq<Job>)
    ensures |js| == |pages|
    ensures forall i :: 0 <= i < |pages| ==> js[i] == Job(Join(dir, PageName(prefix, i)), [pages[i]])
  {
    seq(|pages|, i requires 0 <= i < |pages| => Job(Join(dir, PageName(prefix, i)), [pages[i]]))
  }

  /** The pages the jobs hold, one job after the other. */
  function JobPages(js: seq<Job>): seq<Page>
  {
    if |js| == 0 then [] else js[0].pages + JobPages(js[1..])
  }

  /** Splitting page by page loses nothing and reorders nothing: merging the
      outputs in order gives back the document's pages. */
  lemma {:induction false} PageJobsCover(pages: seq<Page>, dir: Path, prefix: string, k: nat)
    requires k <= |pages|
    ensures JobPages(PageJobs(pages, dir, prefix)[k..]) == pages[k..]
    decreases |pages| - k
  {
    var js := PageJobs(pages, dir, prefix);
    if k < |pages| {
      PageJobsCover(pages, dir, prefix, k + 1);
      assert js[k..][1..] == js[k + 1..];
      assert pages[k..] == [pages[k]] + pages[k + 1..];
    }
  }

  /** Writes the jobs in order, each through a fresh writer; the first failure
      stops the loop, leaving earlier outputs in place. */
  function WriteJobs(lib: PdfLib, fs: FS, js: seq<Job>): (s: Step<seq<RawPath>>)
    ensures s.r.Ok? ==> |s.r.value| == |js| && forall i :: 0 <= i < |js| ==> s.r.value[i] == js[i].path
    decreases |js|
  {
    if |js| == 0 then Step(fs, Ok([]))
    else
      match WriteFile(fs, js[0].path, Written(lib, js[0].pages))
      case Err(e) => Step(fs, Err(e))
      case Ok(fs1) =>
        var rest := WriteJobs(lib, fs1, js[1..]);
        match rest.r
        case Err(e) => Step(rest.fs, Err(e))
        case Ok(ps) => Step(rest.fs, Ok([js[0].path] + ps))
  }

  function SplitFailed(p: RawPath, e: Exc): Exc
  {
    Exc(Exception, "An unexpected error occurred while splitting " + Render(p) + ": " + Text(e))
  }

  /** `split_pdf(input, dir, pages, prefix)`: a non-empty `pages` selects spec
      mode, otherwise one file per page. The spec is validated in full before
      anything is written. */
  function SplitPdf(lib: PdfLib, fs: FS, input: RawPath, dir: Path, pages: string, prefix: string): (s: Step<seq<RawPath>>)
    ensures s.r.Err? ==> s.r.error.Exc?
  {
    if !Exists(fs, input) then Step(fs, Err(NotFound("Input PDF file not found: ", input)))
    else
      match Mkdirs(fs, dir)
      case Err(e) => MkdirsRaisesOSError(fs, dir); Step(fs, Err(e))
      case Ok(fs1) =>
        match Open(lib, fs1, input)
        case Err(e) =>
          if e.Exc? && e.kind == PdfReadError then Step(fs1, Err(CorruptPdf(input)))
          else Step(fs1, Err(SplitFailed(input, e)))
        case Ok(doc) =>
          var js :=
            if pages != "" then
              match ParseSpec(pages, |doc.pages|)
              case Err(m) => Err(m)
              case Ok(rs) => Ok(RangeJobs(doc.pages, dir, prefix, rs))
            else Ok(PageJobs(doc.pages, dir, prefix));
          match js
          case Err(m) => Step(fs1, Err(SplitFailed(input, Exc(ValueError, m))))
          case Ok(jobs) =>
            var w := WriteJobs(lib, fs1, jobs);
            match w.r
            case Err(e) => Step(w.fs, Err(SplitFailed(input, e)))
            case Ok(ps) => Step(w.fs, Ok(ps))
  }

  /** An invalid spec writes nothing: the only change is the output directory. */
  lemma SplitBadSpecWritesNothing(lib: PdfLib, fs: FS, input: RawPath, dir: Path, pages: string, prefix: string, doc: PdfDoc)
    requires Exists(fs, input) && Mkdirs(fs, dir).Ok?
    requires Open(lib, Mkdirs(fs, dir).value, input) == Ok(doc)
    requires pages != "" && ParseSpec(pages, |doc.pages|).Err?
    ensures SplitPdf(lib, fs, input, dir, pages, prefix) ==
              Step(Mkdirs(fs, dir).value,
                   Err(SplitFailed(input, Exc(ValueError, ParseSpec(pages, |doc.pages|).error))))
  {
  }

  /** With a valid spec the outputs are one per part, in spec order, each named
      `{prefix}_{i}_{a}-{b}.pdf` and holding pages a..b; without a spec they are
      one per page, named `{prefix}_{i}.pdf`. */
  lemma SplitOutputs(lib: PdfLib, fs: FS, input: RawPath, dir: Path, pages: string, prefix: string, doc: PdfDoc)
    requires Exists(fs, input) && Mkdirs(fs, dir).Ok?
    requires Open(lib, Mkdirs(fs, dir).value, input) == Ok(doc)
    requires SplitPdf(lib, fs, input, dir, pages, prefix).r.Ok?
    ensures var out := SplitPdf(lib, fs, input, dir, pages, prefix).r.value;
            && (pages != "" ==>
                  var rs := ParseSpec(pages, |doc.pages|).value;
                  |out| == |rs| == |Split(pages, ',')|
                  && forall i :: 0 <= i < |rs| ==> out[i] == Join(dir, RangeName(prefix, i, rs[i])))
            && (pages == "" ==>
                  |out| == |doc.pages| && forall i :: 0 <= i < |out| ==> out[i] == Join(dir, PageName(prefix, i)))
  {
  }

  // ---------------------------------------------------------------- redact, scrub, fill

  /** Redaction of every page with all terms, in page order; the first page
      the library raises on stops it with that exception. */
  function RedactPages(lib: PdfLib, pages: seq<Page>, terms: seq<Json>): (r: Result<seq<Page>, Raised>)
    ensures r.Ok? ==> |r.value| == |pages|
    ensures r.Ok? ==> forall i :: 0 <= i < |pages| ==> lib.redact(pages[i], terms) == Ok(r.value[i])
    ensures r.Err? ==> exists k :: 0 <= k < |pages| && lib.redact(pages[k], terms) == Err(r.error)
                                   && forall i :: 0 <= i < k ==> lib.redact(pages[i], terms).Ok?
  {
    if |pages| == 0 then Ok([])
    else
      match lib.redact(pages[0], terms)
      case Err(x) => Err(x)
      case Ok(p0) =>
        assert forall i :: 1 <= i < |pages| ==> pages[i] == pages[1..][i - 1];
        match RedactPages(lib, pages[1..], terms)
        case Err(x) =>
          ghost var k :| 0 <= k < |pages[1..]| && lib.redact(pages[1..][k], terms) == Err(x)
                         && forall i :: 0 <= i < k ==> lib.redact(pages[1..][i], terms).Ok?;
          assert lib.redact(pages[k + 1], terms) == Err(x);
          Err(x)
        case Ok(rest) =>
          Ok([p0] + rest)
  }

  function RedactFailed(e: Exc): Exc
  {
    Exc(Exception, "An error occurred during PDF redaction: " + Text(e))
  }

  /** `redact_pdf(input, out, terms)`: a missing input raises
      `FileNotFoundError`; an empty term list only re-saves the document. */
  function RedactPdf(lib: PdfLib, fs: FS, input: RawPath, out: RawPath, terms: seq<Json>): (s: Step<RawPath>)
    ensures s.r.Err? ==> s.r.error.Exc?
    ensures !Exists(fs, input) ==> s == Step(fs, Err(NotFound("Input PDF file not found: ", input)))
    ensures s.r.Ok? ==> s.r.value == out
  {
    if !Exists(fs, input) then Step(fs, Err(NotFound("Input PDF file not found: ", input)))
    else
      match Open(lib, fs, input)
      case Err(e) => Step(fs, Err(RedactFailed(e)))
      case Ok(doc) =>
        var redacted := if |terms| > 0 then RedactPages(lib, doc.pages, terms) else Ok(doc.pages);
        match redacted
        case Err(x) => Step(fs, Err(RedactFailed(Exc(x.kind, x.msg))))
        case Ok(ps) =>
          match WriteFile(fs, out, lib.save(PdfDoc(ps, doc.info)))
          case Err(e) => Step(fs, Err(RedactFailed(e)))
          case Ok(fs') => Step(fs', Ok(out))
  }

  /** With no terms the output is the input document saved again, information
      dictionary included; with terms every page is redacted, in order. */
  lemma RedactSpec(lib: PdfLib, fs: FS, input: RawPath, out: RawPath, terms: seq<Json>, doc: PdfDoc)
    requires Exists(fs, input) && Open(lib, fs, input) == Ok(doc)
    requires RedactPdf(lib, fs, input, out, terms).r.Ok?
    ensures |terms| == 0 ==>
              RedactPdf(lib, fs, input, out, terms).fs == WriteFile(fs, out, lib.save(doc)).value
    ensures |terms| > 0 ==>
              && RedactPages(lib, doc.pages, terms).Ok?
              && RedactPdf(lib, fs, input, out, terms).fs ==
                   WriteFile(fs, out, lib.save(PdfDoc(RedactPages(lib, doc.pages, terms).value, doc.info))).value
  {
  }

  /** When the library raises on a page, the redaction fails with that
      exception's message under the redaction prefix, and nothing is written;
      so does a document the library cannot open. */
  lemma RedactFailures(lib: PdfLib, fs: FS, input: RawPath, out: RawPath, terms: seq<Json>)
    requires Exists(fs, input)
    ensures Open(lib, fs, input).Err? ==>
              RedactPdf(lib, fs, input, out, terms)
                == Step(fs, Err(RedactFailed(Open(lib, fs, input).error)))
    ensures Open(lib, fs, input).Ok? && |terms| > 0 && RedactPages(lib, Open(lib, fs, input).value.pages, terms).Err? ==>
              var x := RedactPages(lib, Open(lib, fs, input).value.pages, terms).error;
              && (exists k :: 0 <= k < |Open(lib, fs, input).value.pages|
                             && lib.redact(Open(lib, fs, input).value.pages[k], terms) == Err(x))
              && RedactPdf(lib, fs, input, out, terms)
                   == Step(fs, Err(RedactFailed(Exc(x.kind, x.msg))))
  {
  }

  /** `scrub_pdf_metadata(input, out)`: the pages are copied in order into a
      fresh writer, which writes only its own document information. */
  function ScrubPdfMetadata(lib: PdfLib, fs: FS, input: RawPath, out: RawPath): (s: Step<RawPath>)
    ensures s.r.Err? ==> s.r.error.Exc?
      ensures !Exists(fs, input) ==>
              s == Step(fs, Err(NotFound("Input PDF file not found for metadata scrubbing: ", input)))
    ensures s.r.Ok? ==> s.r.value == out && Open(lib, fs, input).Ok?
    ensures s.r.Ok? ==>
              && WriteFile(fs, out, Written(lib, Open(lib, fs, input).value.pages)).Ok?
              && s.fs == WriteFile(fs, out, Written(lib, Open(lib, fs, input).value.pages)).value
  {
    if !Exists(fs, input) then Step(fs, Err(NotFound("Input PDF file not found for metadata scrubbing: ", input)))
    else
      match Open(lib, fs, input)
      case Err(e) => Step(fs, Err(ScrubCaught(input, e)))
      case Ok(doc) =>
        match WriteFile(fs, out, Written(lib, doc.pages))
        case Err(e) => Step(fs, Err(ScrubCaught(input, e)))
        case Ok(fs') => Step(fs', Ok(out))
  }

  /** The three `except` clauses of the scrub: a read error becomes the
      corrupted-file message, a missing dependency and anything else are
      re-raised as plain exceptions with their own prefixes. */
  function ScrubCaught(p: RawPath, e: Exc): Exc
  {
    if e.Exc? && e.kind == PdfReadError then CorruptPdf(p)
    else if e.Exc? && e.kind == DependencyError then DependencyFailed("metadata scrubbing", p, e)
    else ScrubFailed(p, e)
  }

  /** A `DependencyError` re-raised as a plain exception naming the operation and the input. */
  function DependencyFailed(during: string, p: RawPath, e: Exc): Exc
  {
    Exc(Exception, "PyPDF2 dependency error during " + during + " for " + Render(p) + ": " + Text(e))
  }

  function ScrubFailed(p: RawPath, e: Exc): Exc
  {
    Exc(Exception, "An unexpected error occurred during metadata scrubbing for " + Render(p) + ": " + Text(e))
  }

  /** A file the library cannot read fails the scrub with the corrupted-file
      `PdfReadError`; a missing dependency and any other exception become
      plain exceptions naming the input and carrying the original message. */
  lemma ScrubOpenFailures(lib: PdfLib, fs: FS, input: RawPath, out: RawPath)
    requires Exists(fs, input) && Open(lib, fs, input).Err?
    ensures var e := Open(lib, fs, input).error;
            var r := ScrubPdfMetadata(lib, fs, input, out).r;
            && (e.Exc? && e.kind == PdfReadError ==> r == Err(CorruptPdf(input)))
            && (e.Exc? && e.kind == DependencyError ==> r == Err(DependencyFailed("metadata scrubbing", input, e)))
            && (e.Exc? && e.kind !in {PdfReadError, DependencyError} ==> r == Err(ScrubFailed(input, e)))
  {
  }

  /** The scrubbed file reads back as the same pages with none of the source's
      document information. */
  lemma ScrubDropsInfo(lib: PdfLib, fs: FS, input: RawPath, out: RawPath, doc: PdfDoc)
    requires SavesFaithfully(lib)
    requires Exists(fs, input) && Open(lib, fs, input) == Ok(doc)
    requires ScrubPdfMetadata(lib, fs, input, out).r.Ok?
    ensures var s := ScrubPdfMetadata(lib, fs, input, out);
            Open(lib, s.fs, out) == Ok(PdfDoc(doc.pages, lib.writerInfo))
  {
    ReadAfterWrite(fs, out, Written(lib, doc.pages));
  }

  /** Form values go onto the first page; the others are copied as they are;
      flattening, when asked, applies to the whole writer. An empty document
      has no first page (`IndexError`). */
  function FillPages(lib: PdfLib, pages: seq<Page>, form: map<string, Json>, flatten: bool): (r: Option<seq<Page>>)
    ensures r.None? <==> |pages| == 0
    ensures r.Some? && !flatten ==>
              && |r.value| == |pages|
              && r.value[0] == lib.fill(pages[0], form)
              && r.value[1..] == pages[1..]
    ensures r.Some? && flatten ==> r.value == lib.flatten([lib.fill(pages[0], form)] + pages[1..])
  {
    if |pages| == 0 then None
    else
      var filled := [lib.fill(pages[0], form)] + pages[1..];
      Some(if flatten then lib.flatten(filled) else filled)
  }

  function FillFailed(e: Exc): Exc
  {
    Exc(Exception, "An unexpected error occurred during PDF form filling: " + Text(e))
  }

  /** What `pdf_reader.pages[0]` raises for a document without pages:
      PyPDF2's page list checks the index itself. */
  function NoFirstPage(): Exc { Exc(IndexError, "sequence index out of range") }

  /** `fill_and_flatten_pdf_form(input, out, form, flatten)`. */
  function FillAndFlattenPdfForm(lib: PdfLib, fs: FS, input: RawPath, out: RawPath, form: map<string, Json>, flatten: bool): (s: Step<RawPath>)
    ensures s.r.Err? ==> s.r.error.Exc?
    ensures !Exists(fs, input) ==> s == Step(fs, Err(NotFound("Input PDF form file not found: ", input)))
    ensures s.r.Ok? ==> s.r.value == out && Open(lib, fs, input).Ok?
    ensures s.r.Ok? ==>
              && FillPages(lib, Open(lib, fs, input).value.pages, form, flatten).Some?
              && WriteFile(fs, out, Written(lib, FillPages(lib, Open(lib, fs, input).value.pages, form, flatten).value)).Ok?
              && s.fs == WriteFile(fs, out, Written(lib, FillPages(lib, Open(lib, fs, input).value.pages, form, flatten).value)).value
    ensures Open(lib, fs, input).Ok? && |Open(lib, fs, input).value.pages| == 0 && Exists(fs, input) ==>
              s == Step(fs, Err(FillFailed(NoFirstPage())))
  {
    if !Exists(fs, input) then Step(fs, Err(NotFound("Input PDF form file not found: ", input)))
    else
      match Open(lib, fs, input)
      case Err(e) => Step(fs, Err(FillCaught(input, e)))
      case Ok(doc) =>
        match FillPages(lib, doc.pages, form, flatten)
        case None => Step(fs, Err(FillFailed(NoFirstPage())))
        case Some(ps) =>
          match WriteFile(fs, out, Written(lib, ps))
          case Err(e) => Step(fs, Err(FillCaught(input, e)))
          case Ok(fs') => Step(fs', Ok(out))
  }

  /** The three `except` clauses of the form fill, as for the scrub but with
      their own messages. */
  function FillCaught(p: RawPath, e: Exc): Exc
  {
    if e.Exc? && e.kind == PdfReadError then NotAForm(p)
    else if e.Exc? && e.kind == DependencyError then DependencyFailed("form filling", p, e)
    else FillFailed(e)
  }

  function NotAForm(p: RawPath): Exc
  {
    Exc(PdfReadError, "Error reading PDF file: " + Render(p) + ". It might be corrupted or encrypted, or not a valid PDF form.")
  }

  /** The form fill's handlers: a read error keeps its class with the
      form-specific message, a missing dependency and any other exception
      become plain exceptions carrying the original message. */
  lemma FillOpenFailures(lib: PdfLib, fs: FS, input: RawPath, out: RawPath, form: map<string, Json>, flatten: bool)
    requires Exists(fs, input) && Open(lib, fs, input).Err?
    ensures var e := Open(lib, fs, input).error;
            var r := FillAndFlattenPdfForm(lib, fs, input, out, form, flatten).r;
            && (e.Exc? && e.kind == PdfReadError ==> r == Err(NotAForm(input)))
            && (e.Exc? && e.kind == DependencyError ==> r == Err(DependencyFailed("form filling", input, e)))
            && (e.Exc? && e.kind !in {PdfReadError, DependencyError} ==> r == Err(FillFailed(e)))
  {
  }
}
