/** Which handler serves a request: `app/main.py` mounts the routers of
    `app/routers/pdf/` and `app/routers/convert/` in a fixed order and adds
    its own root route last, and the first route whose method and path
    match a request is the one that runs. */
module Routes {
  import opened Wrappers
  import opened JsonValue
  import opened TempStorage
  import opened PdfHandler
  import opened Jobs
  import PdfBasicTools
  import PdfAdvancedTools

  datatype Verb = Get | Post

  /** Every endpoint of the repository. The `Legacy` ones belong to the older
      routers `app/routers/basic_tools.py` and `app/routers/advanced_tools.py`. */
  datatype Handler =
    | Root
    | Merge | Split | Redact | ScrubMetadata | FillForm | DownloadTempFile
    | BatchRedact | BatchOcrTranslate | BatchScrubMetadata
    | AdvancedRedact | OcrTranslate | AdvancedScrubMetadata | AdvancedFillForm
    | PdfToImages | PdfToText | PdfToPptx | ImagesToPdf | TextToPdf | PptxToPdf | AnyToPdf | PdfToAny
    | LegacyMerge | LegacySplit | LegacyDownload
    | LegacyRedact | LegacyOcrTranslate | LegacyScrubMetadata | LegacyFillForm

  predicate IsLegacy(h: Handler)
  {
    || h.LegacyMerge? || h.LegacySplit? || h.LegacyDownload?
    || h.LegacyRedact? || h.LegacyOcrTranslate? || h.LegacyScrubMetadata? || h.LegacyFillForm?
  }

  /** A route's path: a fixed path, or a fixed start followed by the two path
      parameters `/{temp_dir_name}/{filename:path}` of the download routes. */
  datatype Pattern = Exact(path: string) | TwoParams(base: string)

  datatype Route = Route(verb: Verb, pattern: Pattern, handler: Handler)

  /** The first parameter is one non-empty segment, the second anything. */
  predicate SegmentThenRest(r: string)
  {
    exists k :: 0 < k < |r| && r[k] == '/' && forall m :: 0 <= m < k ==> r[m] != '/'
  }

  predicate Matches(p: Pattern, path: string)
  {
    match p
    case Exact(s) => path == s
    case TwoParams(b) => |b| < |path| && b + "/" <= path && SegmentThenRest(path[|b| + 1..])
  }

  predicate Serves(r: Route, verb: Verb, path: string)
  {
    r.verb == verb && Matches(r.pattern, path)
  }

  /** The index of the first route that serves the request, or the number of
      routes when none does. */
  function FirstMatch(routes: seq<Route>, verb: Verb, path: string): (i: nat)
    ensures i <= |routes|
    ensures i < |routes| ==> Serves(routes[i], verb, path)
    ensures forall j :: 0 <= j < i ==> !Serves(routes[j], verb, path)
  {
    if |routes| == 0 then 0
    else if Serves(routes[0], verb, path) then 0
    else 1 + FirstMatch(routes[1..], verb, path)
  }

  /** The handler that runs, or None for a 404 (or a 405 when only the method
      differs). */
  function Dispatch(routes: seq<Route>, verb: Verb, path: string): Option<Handler>
  {
    var i := FirstMatch(routes, verb, path);
    if i < |routes| then Some(routes[i].handler) else None
  }

  // ---------------------------------------------------------------- the routers

  /** `app/routers/pdf/basic_tools.py`, prefix `/api/pdf`. */
  function PdfBasicRoutes(): seq<Route>
  {
    [ Route(Post, Exact("/api/pdf/merge"), Merge),
      Route(Post, Exact("/api/pdf/split"), Split),
      Route(Post, Exact("/api/pdf/redact"), Redact),
      Route(Post, Exact("/api/pdf/scrub-metadata"), ScrubMetadata),
      Route(Post, Exact("/api/pdf/fill-form"), FillForm),
      Route(Get, TwoParams("/api/pdf/download_temp_file"), DownloadTempFile) ]
  }

  /** `app/routers/pdf/batch_tools.py`, whose router has no prefix. */
  function BatchRoutes(): seq<Route>
  {
    [ Route(Post, Exact("/batch_redact"), BatchRedact),
      Route(Post, Exact("/batch_ocr_translate"), BatchOcrTranslate),
      Route(Post, Exact("/batch_scrub_metadata"), BatchScrubMetadata) ]
  }

  /** `app/routers/pdf/advanced_tools.py`, prefix `/api/pdf`. */
  function PdfAdvancedRoutes(): seq<Route>
  {
    [ Route(Post, Exact("/api/pdf/redact"), AdvancedRedact),
      Route(Post, Exact("/api/pdf/ocr_translate"), OcrTranslate),
      Route(Post, Exact("/api/pdf/scrub_metadata"), AdvancedScrubMetadata),
      Route(Post, Exact("/api/pdf/fill_form"), AdvancedFillForm) ]
  }

  /** `app/routers/convert/conversion.py`, prefix `/api/convert`. */
  function ConvertRoutes(): seq<Route>
  {
    [ Route(Post, Exact("/api/convert/pdf_to_images"), PdfToImages),
      Route(Post, Exact("/api/convert/pdf_to_text"), PdfToText),
      Route(Post, Exact("/api/convert/pdf_to_pptx"), PdfToPptx),
      Route(Post, Exact("/api/convert/images_to_pdf"), ImagesToPdf),
      Route(Post, Exact("/api/convert/text_to_pdf"), TextToPdf),
      Route(Post, Exact("/api/convert/pptx_to_pdf"), PptxToPdf),
      Route(Post, Exact("/api/convert/any_to_pdf"), AnyToPdf),
      Route(Post, Exact("/api/convert/pdf_to_any"), PdfToAny) ]
  }

  /** The older routers, which no file includes: no prefix. */
  function LegacyRoutes(): seq<Route>
  {
    [ Route(Post, Exact("/merge"), LegacyMerge),
      Route(Post, Exact("/split"), LegacySplit),
      Route(Get, TwoParams("/download_temp_file"), LegacyDownload),
      Route(Post, Exact("/redact"), LegacyRedact),
      Route(Post, Exact("/ocr_translate"), LegacyOcrTranslate),
      Route(Post, Exact("/scrub_metadata"), LegacyScrubMetadata),
      Route(Post, Exact("/fill_form"), LegacyFillForm) ]
  }

  /** The routes after the first router, and after the first two, as mounted. */
  function ConvertAndRoot(): seq<Route>
  {
    ConvertRoutes() + [Route(Get, Exact("/"), Root)]
  }

  /** The application: the four `include_router` calls in order, then
      `GET /`. */
  function App(): seq<Route>
  {
    PdfBasicRoutes() + (BatchRoutes() + (PdfAdvancedRoutes() + ConvertAndRoot()))
  }

  function OrElse(a: Option<Handler>, b: Option<Handler>): Option<Handler>
  {
    if a.Some? then a else b
  }

  // ---------------------------------------------------------------- properties

  /** Routes mounted earlier are tried first: the later ones are consulted
      only for requests the earlier ones do not serve. */
  lemma {:induction false} DispatchAppend(a: seq<Route>, b: seq<Route>, verb: Verb, path: string)
    ensures Dispatch(a + b, verb, path) == OrElse(Dispatch(a, verb, path), Dispatch(b, verb, path))
    decreases |a|
  {
    if |a| > 0 {
      assert (a + b)[0] == a[0];
      if !Serves(a[0], verb, path) {
        assert (a + b)[1..] == a[1..] + b;
        DispatchAppend(a[1..], b, verb, path);
      }
    } else {
      assert a + b == b;
    }
  }

  /** The application asks each router in the order `app/main.py` includes
      them. */
  lemma DispatchMounted(verb: Verb, path: string)
    ensures Dispatch(App(), verb, path)
            == OrElse(Dispatch(PdfBasicRoutes(), verb, path),
               OrElse(Dispatch(BatchRoutes(), verb, path),
               OrElse(Dispatch(PdfAdvancedRoutes(), verb, path),
                      Dispatch(ConvertAndRoot(), verb, path))))
  {
    DispatchAppend(PdfAdvancedRoutes(), ConvertAndRoot(), verb, path);
    DispatchAppend(BatchRoutes(), PdfAdvancedRoutes() + ConvertAndRoot(), verb, path);
    DispatchAppend(PdfBasicRoutes(), BatchRoutes() + (PdfAdvancedRoutes() + ConvertAndRoot()), verb, path);
  }

  /** No route of the list carries the handler. */
  predicate Lacks(routes: seq<Route>, h: Handler)
  {
    forall i :: 0 <= i < |routes| ==> routes[i].handler != h
  }

  /** A handler no route carries is never chosen. */
  lemma DispatchAvoids(routes: seq<Route>, h: Handler, verb: Verb, path: string)
    requires Lacks(routes, h)
    ensures Dispatch(routes, verb, path) != Some(h)
  {
  }

  /** A handler that only the first route carries is chosen only when that
      route serves the request. */
  lemma DispatchOnlyFirst(routes: seq<Route>, h: Handler, verb: Verb, path: string)
    requires |routes| > 0 && Lacks(routes[1..], h) && !Serves(routes[0], verb, path)
    ensures Dispatch(routes, verb, path) != Some(h)
  {
    var i := FirstMatch(routes, verb, path);
    if i < |routes| {
      assert routes[i] == routes[1..][i - 1];
    }
  }

  /** `POST /api/pdf/redact` is answered by the basic router, mounted first,
      whose check only asks for a JSON list. */
  lemma RedactServedByBasicRouter()
    ensures Dispatch(App(), Post, "/api/pdf/redact") == Some(Redact)
  {
    DispatchMounted(Post, "/api/pdf/redact");
    assert !Serves(PdfBasicRoutes()[0], Post, "/api/pdf/redact");
    assert !Serves(PdfBasicRoutes()[1], Post, "/api/pdf/redact");
    assert Serves(PdfBasicRoutes()[2], Post, "/api/pdf/redact");
  }

  /** The advanced router's redaction is the first route of its router and
      appears nowhere else. */
  lemma AdvancedRedactPlaced()
    ensures PdfAdvancedRoutes()[0] == Route(Post, Exact("/api/pdf/redact"), AdvancedRedact)
    ensures Lacks(PdfBasicRoutes(), AdvancedRedact) && Lacks(BatchRoutes(), AdvancedRedact)
    ensures Lacks(PdfAdvancedRoutes()[1..], AdvancedRedact) && Lacks(ConvertAndRoot(), AdvancedRedact)
  {
  }

  /** The advanced router's redaction never runs: its only route is the
      basic router's path, which is tried first. */
  lemma AdvancedRedactShadowed(verb: Verb, path: string)
    ensures Dispatch(App(), verb, path) != Some(AdvancedRedact)
  {
    DispatchMounted(verb, path);
    if verb == Post && path == "/api/pdf/redact" {
      RedactServedByBasicRouter();
    } else {
      AdvancedRedactPlaced();
      DispatchAvoids(PdfBasicRoutes(), AdvancedRedact, verb, path);
      DispatchAvoids(BatchRoutes(), AdvancedRedact, verb, path);
      DispatchOnlyFirst(PdfAdvancedRoutes(), AdvancedRedact, verb, path);
      DispatchAvoids(ConvertAndRoot(), AdvancedRedact, verb, path);
    }
  }

  /** No route of the list leads to an older router. */
  predicate NoLegacy(routes: seq<Route>)
  {
    forall i :: 0 <= i < |routes| ==> !IsLegacy(routes[i].handler)
  }

  /** The mounted routers lead to no older router. */
  lemma MountedNoLegacy()
    ensures NoLegacy(PdfBasicRoutes()) && NoLegacy(BatchRoutes())
    ensures NoLegacy(PdfAdvancedRoutes()) && NoLegacy(ConvertAndRoot())
  {
  }

  lemma DispatchNoLegacy(routes: seq<Route>, verb: Verb, path: string)
    requires NoLegacy(routes)
    ensures Dispatch(routes, verb, path).Some? ==> !IsLegacy(Dispatch(routes, verb, path).value)
  {
  }

  /** Only the routers of `app/routers/pdf/` and `app/routers/convert/` are
      mounted: no request reaches an older router, though the older routers'
      own paths would have served one. */
  lemma LegacyNotMounted(verb: Verb, path: string)
    ensures Dispatch(App(), verb, path).Some? ==> !IsLegacy(Dispatch(App(), verb, path).value)
    ensures Dispatch(LegacyRoutes(), Post, "/merge") == Some(LegacyMerge)
  {
    DispatchMounted(verb, path);
    MountedNoLegacy();
    DispatchNoLegacy(PdfBasicRoutes(), verb, path);
    DispatchNoLegacy(BatchRoutes(), verb, path);
    DispatchNoLegacy(PdfAdvancedRoutes(), verb, path);
    DispatchNoLegacy(ConvertAndRoot(), verb, path);
    assert Serves(LegacyRoutes()[0], Post, "/merge");
  }

  /** The batch router has no prefix: its endpoints are served at the root
      of the application, not under `/api/pdf`. */
  lemma BatchAtRoot()
    ensures Dispatch(App(), Post, "/batch_redact") == Some(BatchRedact)
  {
    DispatchMounted(Post, "/batch_redact");
    assert Dispatch(PdfBasicRoutes(), Post, "/batch_redact") == None;
    assert Serves(BatchRoutes()[0], Post, "/batch_redact");
  }

  /** Because of the shadowing, a terms list holding a non-string is accepted
      at `POST /api/pdf/redact` (no 400), though the advanced router's own
      check would have refused it with 400 and left the state alone. */
  lemma ServedRedactAcceptsAnyList(ctx: Ctx, st: St, lib: PdfLib, parse: JsonParser, up: Upload,
                                   termsJson: string, outputFilename: string)
    requires IsPdfName(up.filename)
    requires parse(termsJson).Some? && IsList(parse(termsJson).value) && !IsStringList(parse(termsJson).value)
    ensures PdfBasicTools.RedactPdfFile(ctx, st, lib, parse, up, termsJson, outputFilename).status != 400
    ensures var r := PdfAdvancedTools.RedactPdfFile(ctx, st, lib, parse, up, termsJson, outputFilename);
            r.status == 400 && r.st == st
  {
    PdfBasicTools.RedactValidation(ctx, st, lib, parse, up, termsJson, outputFilename);
    PdfAdvancedTools.RedactValidation(ctx, st, lib, parse, up, termsJson, outputFilename);
  }
}
