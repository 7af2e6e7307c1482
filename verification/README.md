# Secure PDF Toolkit backend — a Dafny model

This project models the core of a FastAPI backend that manipulates PDF files
on behalf of a web front end. Every request is handled in the same way. The
upload is staged in a temporary area, a PDF or conversion library works on
the staged copy, and the result is streamed back. Background tasks and
`finally` clauses then remove what the request left behind.

The model covers the following, module by module:

- `PyStr`, `PyPath`: the Python string and `pathlib` behaviour the code
  relies on. This includes `split`/`join`/`strip`, `str(int)` and
  `int(str)`, `Path(...).name/.stem/.suffix`, `/` joining, lexical
  `resolve()`, and containment under a base directory.
- `FileSystem`: a file tree as a map from normalised paths to `File(bytes)`
  or `Dir` entries. It provides `mkdir(parents=True, exist_ok=True)`,
  `open(..., "wb")`, `os.remove`, `rmtree`, `iterdir` and `is_file`.
- `TempStorage` (`app/services/utils.py`): the temporary area, i.e.
  `save_temp_file`, `get_temp_file_path`, `cleanup_temp_file` and
  `cleanup_temp_files`.
- `Archive` (`app/services/utils.py`): `extract_zip_archive` and
  `create_zip_archive`.
- `PdfHandler` (`app/services/pdf_handler.py`): the page algebra of merge,
  split (including the `pages` specification language), redaction, metadata
  scrubbing and form filling.
- `Ocr` (`app/services/ocr.py`): page-by-page OCR text assembly and the
  translation fallback.
- `Jobs`: what every endpoint shares. This covers the response, the queued
  background tasks, the mapping of exceptions to HTTP errors, and the
  stage / transform / `finally` skeleton.
- `PdfBasicTools`, `PdfAdvancedTools`, `PdfBatchTools`: the routers under
  `app/routers/pdf/`. `PdfAdvancedTools` also covers the handlers of the
  older `app/routers/advanced_tools.py`. That file's handlers are the same;
  it differs in never importing `aiofiles`, and its router is a bare
  `APIRouter()` without the `/api/pdf` prefix and the tags
  (`app/routers/advanced_tools.py:12`, against
  `app/routers/pdf/advanced_tools.py:16`).
  The batch endpoints take the containment test of the ZIP extraction as a
  parameter: the as-written `starts_with` call, under which no batch request
  is ever served, or the intended segment-wise test (see "## Findings").
- `LegacyBasicTools`: the older `app/routers/basic_tools.py`.
- `Layout`, `Conversion`, `ConversionRouter`, `ConversionRouterFacts`,
  `AnyToPdfEndpoint`, `AnyToPdfFacts` (`app/routers/convert/conversion.py`):
  the conversion rules, the text and CSV page layout, and the conversion
  endpoints.
- `Routes` (`app/main.py`): the order in which routers are mounted, and which
  handler answers a request.

Everything the code delegates to a library or to the operating system is a
parameter of the model, an *oracle*:

- PyPDF2 and PyMuPDF (`PdfLib`);
- Tesseract via `pdf2image` (`OcrLib`);
- the translator;
- the `soffice` subprocess;
- `zipfile` member listing and data (`ZipLib`);
- `json.loads` (`JsonParser`);
- `mimetypes`;
- `pandas`/`reportlab`/Pillow page content;
- the UUID source. `uuid4()` is read from a context function `ctx.uuid`,
  indexed by a counter in the state. Most freshness results assume the
  uuids drawn are distinct and unused.

The model states what the code does with the oracles' answers.

## Model

| member | source | states |
|---|---|---|
| PyStr.Split | app/services/pdf_handler.py:44 | `str.split(sep)` yields at least one part, and no part contains the separator |
| PyStr.SplitJoin | app/services/pdf_handler.py:44 | joining the parts of a split with the same separator gives back the original string |
| PyStr.JoinSplit | app/services/pdf_handler.py:44 | splitting a join of separator-free parts gives back exactly those parts |
| PyStr.StripEmptyIffAllSpace | app/services/ocr.py:33 | `text.strip()` is empty exactly when every character is whitespace |
| PyStr.JoinAppend | app/services/ocr.py:29 | joining one more piece extends the joined text by the separator and that piece |
| PyStr.Lower | app/routers/pdf/basic_tools.py:41 | `lower()` keeps the length and maps every character through its lower-case counterpart |
| PyStr.Upper | app/routers/convert/conversion.py:490 | `upper()` keeps the length and maps every character through its upper-case counterpart |
| PyStr.NatToString | app/services/pdf_handler.py:71 | the decimal rendering of a page number is non-empty and made of digits only |
| PyStr.NatToStringValue | app/services/pdf_handler.py:71 | the digits of `str(n)` denote the value n |
| PyStr.ParseIntOfNatToString | app/services/pdf_handler.py:50-51 | `int(str(n)) == n` for every natural number |
| PyStr.NatToStringInjective | app/services/pdf_handler.py:81 | different page numbers render to different strings |
| PyPath.Components | app/services/utils.py:17 | every component `pathlib` keeps from a name is a proper component: non-empty, not `.`, free of `/` |
| PyPath.JoinComponents | app/services/utils.py:91 | joining a client's name onto a parsed path gives a parsed path: no empty or `.` component appears |
| PyPath.StemSuffix | app/routers/pdf/basic_tools.py:35 | stem followed by suffix is the name; the suffix is empty or a dot followed by dot-free text |
| PyPath.NameWithSuffixIsOrdinary | app/services/utils.py:17-19 | a uuid followed by the suffix of a slash-free name is a single ordinary component |
| PyPath.NormalizeIsNormal | app/services/utils.py:91 | lexical `resolve()` yields a path without `.`, `..` or empty components |
| PyPath.NormalizeOfNormal | app/services/utils.py:91 | resolving an already resolved path changes nothing |
| PyPath.NormalizeAppend | app/services/utils.py:91 | a normal base followed by normal components is already resolved |
| PyPath.JoinOrdinaryWithin | app/services/utils.py:91-92 | a name made of ordinary components, joined to a directory, resolves to a path inside it |
| PyPath.ParentReferenceEscapes | app/services/utils.py:91-92 | a `../x` member resolves outside the extraction directory |
| PyPath.AbsoluteJoinReplaces | app/services/utils.py:91 | joining an absolute member name discards the directory it is joined to |
| PyPath.WithinIffSeparatorPrefix | app/services/utils.py:92 | path containment holds exactly when the paths are equal, or when the base rendered with a trailing `/` is a string prefix |
| PyPath.StringPrefixAdmitsSibling | app/services/utils.py:92 | a plain string-prefix test admits the sibling `/tmp/area12` of `/tmp/area1`, which is not inside it |
| FileSystem.WalkLandsOnEntry | app/services/utils.py:44-51 | in a well-formed tree a walk ends on an existing entry, and `exists()` holds exactly when the walk ends somewhere |
| FileSystem.WalkOfNormal | app/services/utils.py:44-50 | a normal path is found exactly when it is an entry, and then leads to itself |
| FileSystem.WalkIsNormalize | app/services/utils.py:91 | wherever a path leads is its lexical normal form |
| FileSystem.OSErr | app/services/utils.py:21-23 | every `errno` the file-system calls meet becomes an `OSError` subclass whose text is `[Errno n] <strerror>: <path>` |
| FileSystem.WriteFile | app/services/utils.py:21-23 | `open(p, "wb")` succeeds exactly when the walked parent is a directory and the target is not a directory; it then sets that entry's bytes; failures are `OSError` |
| FileSystem.FileAsParent | app/services/utils.py:21-23 | a file where a parent directory should be makes both writing and reading below it raise `NotADirectoryError` naming the path |
| FileSystem.MissingInDir | app/services/utils.py:45 | a missing name inside an existing directory makes reading and `os.remove` raise `FileNotFoundError` naming the path |
| FileSystem.WriteFileReadsBack | app/services/utils.py:21-23 | a write keeps the tree well formed, and the written file reads back as exactly the data |
| FileSystem.Read | app/routers/convert/conversion.py:99 | a read succeeds exactly when the path is a file, and returns its bytes |
| FileSystem.Remove | app/services/utils.py:45 | `os.remove` succeeds exactly on a file, and removes just that entry |
| FileSystem.RemoveValid | app/services/utils.py:45 | removing a file keeps the tree well formed |
| FileSystem.RemoveTree | app/services/utils.py:48 | exactly the entries not at or below the target remain (the root always stays), with their contents |
| FileSystem.RemoveTreeValid | app/services/utils.py:51 | removing a subtree keeps the tree well formed |
| FileSystem.RmTree | app/services/utils.py:51 | `rmtree` succeeds exactly on a directory, and then removes it with all its contents |
| FileSystem.IsEmptyDir | app/services/utils.py:47 | `not any(iterdir())` is defined exactly on a directory, and is true exactly when nothing lies directly in it |
| FileSystem.NoChildrenNoDescendants | app/services/utils.py:47-48 | in a well formed tree, a directory without children has no descendants at all |
| FileSystem.MkdirsSpec | app/services/utils.py:15 | `mkdir(parents=True, exist_ok=True)` succeeds exactly when no file lies on the path, and then every prefix is a directory |
| FileSystem.CreateChainSpec | app/services/utils.py:15 | on a missing path the chain of directories is created exactly when no file lies on the path, with the same outcome as `mkdir` |
| FileSystem.MkdirsRaisesOSError | app/services/utils.py:85 | a failed `mkdir` raises `OSError` |
| FileSystem.MkdirsErrors | app/services/utils.py:38 | a file at the path makes `mkdir(parents=True, exist_ok=True)` raise `FileExistsError`, a file above it `NotADirectoryError`, both naming the path |
| FileSystem.OsMkdir | app/routers/convert/conversion.py:179 | `os.mkdir` succeeds exactly where `open` would create a new entry, and adds just that directory; failures are `OSError` |
| FileSystem.OsMakedirs | app/routers/convert/conversion.py:179 | `os.makedirs` keeps every existing entry and adds only directories, also when it fails part-way; failures are `OSError` |
| FileSystem.OsMakedirsIsMkdirs | app/routers/convert/conversion.py:179 | on a missing normal path `os.makedirs` succeeds exactly when `mkdir(parents=True)` does, leaves the same tree, and otherwise raises `NotADirectoryError` |
| FileSystem.OsMakedirsBelowFile | app/routers/convert/conversion.py:179 | below a file `os.makedirs` raises `NotADirectoryError` naming the path at once, and `mkdir(parents=True)` fails too |
| FileSystem.OsMakedirsAbove | app/routers/convert/conversion.py:179 | with a missing parent, `os.makedirs` agrees with `mkdir(parents=True)` on the path whenever it does on the parent |
| FileSystem.OsMakedirsOneLevel | app/routers/convert/conversion.py:179 | `os.makedirs` of a missing name inside an existing directory adds just that directory and keeps the tree well formed |
| FileSystem.WriteNormal | app/services/utils.py:96-99 | writing a normal path inside an existing directory, where no directory stands, creates or replaces exactly that file |
| FileSystem.ReadAfterWrite | app/services/utils.py:21-23 | reading a path right after writing it gives the written bytes |
| TempStorage.NewDirFresh | app/services/utils.py:29-31 | with a fresh uuid, a new directory is made directly under the root, where nothing was before |
| TempStorage.GetTempFilePathSpec | app/services/utils.py:27-39 | `get_temp_file_path` makes exactly one new directory and returns it, the filename joined to it, or it followed by a second uuid |
| TempStorage.Chunks | app/services/utils.py:22 | every chunk read holds more than zero and at most 1 MiB bytes |
| TempStorage.ChunksConcat | app/services/utils.py:21-23 | the chunks, concatenated, are the uploaded content |
| TempStorage.ChunksCount | app/services/utils.py:22 | an upload of n bytes is read in ceil(n / 1 MiB) chunks |
| TempStorage.SaveTempFile | app/services/utils.py:13-25 | a staged upload's path is the root plus two components, inside the root; failures are `OSError` |
| TempStorage.SaveTempFileSpec | app/services/utils.py:13-25 | on fresh uuids, `root/uuid1/uuid2+suffix` is created, holds exactly the uploaded bytes, and nothing else changes |
| TempStorage.StagedPathIgnoresName | app/services/utils.py:17-19 | two uploads whose names share a suffix are staged at the same path: nothing else of the client's name, `../` included, reaches it |
| TempStorage.CleanupVariantsAgree | app/services/utils.py:42-72 | `cleanup_temp_files` and `cleanup_temp_file` agree on every path |
| TempStorage.CleanupAllRemovesRoot | app/services/utils.py:56-68 | cleaning up the whole area removes the root and everything under it |
| TempStorage.CleanupFileSpec | app/services/utils.py:42-49 | cleaning a file removes it, and also its directory when that becomes empty and is not the root |
| TempStorage.CleanupDirAndAbsent | app/services/utils.py:50-52 | cleaning a directory removes its whole subtree; cleaning an absent path changes nothing |
| TempStorage.CleanupFileKeepsRoot | app/services/utils.py:46-48 | cleaning a staged file keeps the root, and removes nothing but the file and its parent |
| TempStorage.CleanupIdempotent | app/services/utils.py:42-54 | cleaning the same path twice is the same as cleaning it once |
| Archive.Names | app/services/utils.py:88 | the member names listed are those of the archive's members, in order |
| Archive.MemberDataOfUnique | app/services/utils.py:98 | for a name held by one member, reading it gives that member's data |
| Archive.AsWrittenMembers | app/services/utils.py:88-100 | as written, extraction succeeds only when every member is a directory (ends in `/`); the first file member raises the `AttributeError` of the missing `starts_with` |
| Archive.AsWrittenRejectsEveryFile | app/services/utils.py:83-105 | as written, an archive holding one ordinary file fails with the wrapped `AttributeError` |
| Archive.AsWrittenExtractsNothing | app/services/utils.py:83-105 | as written, a successful extraction returns no paths at all |
| Archive.AsWrittenFileMemberFails | app/services/utils.py:88-105 | as written, an archive holding any non-directory member fails with "Failed to extract ZIP archive: 'PosixPath' object has no attribute 'starts_with'" and the member loop's file system |
| Archive.ExtractMembersKept | app/services/utils.py:88-100 | corrected extraction writes exactly the non-directory members that resolve inside the directory, each inside it |
| Archive.ParentMemberSkipped | app/services/utils.py:91-94 | a `../` member is skipped, and nothing is written for it |
| Archive.AbsoluteMemberResolved | app/services/utils.py:91 | an absolute member name resolves to itself, ignoring the extraction directory |
| Archive.Gather | app/services/utils.py:110-114 | at most one entry per input path |
| Archive.GatherSpec | app/services/utils.py:110-114 | when every input is a file: one entry per input, in order, named by its base name and holding its bytes; when none is: no entry |
| Archive.GatherPicksFiles | app/services/utils.py:107-114 | for any mix of files and missing paths: the entries are exactly those of the inputs that are files, in input order, each named by its base name and holding its bytes; the skipped inputs leave no trace |
| Archive.PicksExist | app/services/utils.py:110-114 | the positions of the inputs that are files can always be listed in order, so the mixed-case statement applies to every input list |
| Archive.ExtractMkdirsFails | app/services/utils.py:83-85 | a destination that cannot be created raises its `OSError` unwrapped, because the `mkdir` precedes the `try` |
| Archive.ExtractUnreadable | app/services/utils.py:86-87 | an archive file that cannot be opened fails as "Failed to extract ZIP archive: ...", after the destination was created |
| Archive.ExtractUnparsable | app/services/utils.py:102-103 | bytes that are not a ZIP give "Invalid ZIP file provided." |
| Archive.ExtractParsed | app/services/utils.py:86-105 | a readable archive is decided by the member loop: its file system is kept, its list of paths passes through, and its failure is wrapped as "Failed to extract ZIP archive: ..." |
| Archive.CreateZipArchive | app/services/utils.py:107-117 | the output path is returned, and the written archive reads back as the gathered entries |
| Archive.ExtractOneNew | app/services/utils.py:96-100 | a member with an ordinary name not yet present is written directly inside the directory, holding its data |
| Archive.ExtractDistinctPaths | app/services/utils.py:88-101 | members with distinct ordinary names not yet present are extracted one each, to `dir/name`, in order |
| Archive.ExtractDistinctFiles | app/services/utils.py:88-101 | such an extraction leaves each member's data under its name and every earlier entry unchanged |
| Archive.PackExisting | app/services/utils.py:107-115 | packing files that all exist archives every one of them, in order |
| Archive.PackThenExtract | app/services/utils.py:83-117 | round trip: packing files with distinct base names and extracting into an empty directory gives each file back under its base name, in order |
| Archive.ExtractReadsArchive | app/services/utils.py:86-88 | extracting from a file holding a well-formed archive runs the member loop over its names |
| PdfHandler.CollectPages | app/services/pdf_handler.py:11-21 | failures are ordinary exceptions, and a success means every input exists |
| PdfHandler.MergePdfs | app/services/pdf_handler.py:9-28 | on error the tree is unchanged; on success the output reads back as a document of the collected pages |
| PdfHandler.CollectPagesConcat | app/services/pdf_handler.py:11-17 | when every input is readable, the collected pages are the documents' pages concatenated in input order |
| PdfHandler.MergeReadsBack | app/services/pdf_handler.py:9-28 | the merged file reads back as the concatenated pages, under a fresh writer's document information |
| PdfHandler.MergeFirstMissing | app/services/pdf_handler.py:12-13 | the first missing input raises `FileNotFoundError` naming it, after the readable inputs before it, and nothing is written to any output path |
| PdfHandler.ParsePart | app/services/pdf_handler.py:45-64 | a part that parses is a 1-based range within the document |
| PdfHandler.ParseSpec | app/services/pdf_handler.py:42-64 | a parsed spec has one range per comma-separated part, each within the document |
| PdfHandler.ParseParts | app/services/pdf_handler.py:45-64 | the parts parse exactly when every part parses, and every range lies in the document |
| PdfHandler.ParseRenderRange | app/services/pdf_handler.py:47-64 | a valid range rendered as text parses back to itself |
| PdfHandler.ParseRenderSingle | app/services/pdf_handler.py:57-64 | a page number within the document, written in decimal, parses to the single-page range |
| PdfHandler.ParseRenderSpan | app/services/pdf_handler.py:47-56 | `a-b` with 1 <= a <= b <= total parses to the range from a to b |
| PdfHandler.ParseRenderSpec | app/services/pdf_handler.py:42-64 | round trip: rendering valid ranges as a spec and parsing it gives the ranges back |
| PdfHandler.EmptyPartRejected | app/services/pdf_handler.py:57-64 | an empty part (as in `1,,2`) is rejected |
| PdfHandler.TwoDashesRejected | app/services/pdf_handler.py:47-48 | a part with two dashes is rejected |
| PdfHandler.ReversedRangeRejected | app/services/pdf_handler.py:49-56 | a range whose start exceeds its end is rejected |
| PdfHandler.PagePastEndRejected | app/services/pdf_handler.py:58-64 | a page past the end of the document is rejected |
| PdfHandler.PageNamesDistinct | app/services/pdf_handler.py:81 | the per-page output names are pairwise distinct |
| PdfHandler.Select | app/services/pdf_handler.py:68-69 | a range selects pages a..b of the document, in order |
| PdfHandler.RangeJobs | app/services/pdf_handler.py:66-75 | range i becomes the output `{prefix}_{i}_{a}-{b}.pdf` holding exactly pages a..b |
| PdfHandler.PageJobs | app/services/pdf_handler.py:77-85 | page i becomes its own output `{prefix}_{i}.pdf` holding just that page |
| PdfHandler.PageJobsCover | app/services/pdf_handler.py:77-85 | the one-page outputs, concatenated, are the whole document |
| PdfHandler.WriteJobs | app/services/pdf_handler.py:66-87 | a successful write returns the jobs' paths, in job order |
| PdfHandler.SplitPdf | app/services/pdf_handler.py:31-92 | `split_pdf` raises only ordinary exceptions, never an HTTP error |
| PdfHandler.SplitBadSpecWritesNothing | app/services/pdf_handler.py:35-64 | an unparsable spec writes no output (only the output directory may be made) |
| PdfHandler.SplitOutputs | app/services/pdf_handler.py:66-87 | with a spec: one output per comma part, named `{prefix}_{i}_{a}-{b}.pdf`, in spec order; without: one per page, named `{prefix}_{i}.pdf` |
| PdfHandler.RedactPages | app/services/pdf_handler.py:103-111 | a success has one page per input page, each the library's redaction of that page with all the terms; a failure is the exception the library raised on some page, every page before it having succeeded |
| PdfHandler.RedactFailures | app/services/pdf_handler.py:100-117 | a document that cannot be opened, or a page the library raises on, fails the call with "An error occurred during PDF redaction: " and that exception's message, writing nothing |
| PdfHandler.RedactPdf | app/services/pdf_handler.py:95-120 | a missing input raises `FileNotFoundError` and changes nothing; failures are ordinary exceptions; a success returns the output path |
| PdfHandler.RedactSpec | app/services/pdf_handler.py:95-120 | with no terms the document is only re-saved; with terms every page is redacted |
| PdfHandler.ScrubPdfMetadata | app/services/pdf_handler.py:123-145 | a missing input raises `FileNotFoundError`; on success the output holds the input's pages as a fresh writer writes them |
| PdfHandler.ScrubOpenFailures | app/services/pdf_handler.py:140-145 | when the input cannot be read: a `PdfReadError` becomes the corrupted-or-encrypted `PdfReadError`, a `DependencyError` becomes "PyPDF2 dependency error during metadata scrubbing for <input>: ...", anything else "An unexpected error occurred during metadata scrubbing for <input>: ..." |
| PdfHandler.ScrubDropsInfo | app/services/pdf_handler.py:131-137 | a scrubbed document keeps every page and carries no metadata |
| PdfHandler.FillPages | app/services/pdf_handler.py:161-167 | form values go onto the first page only, forms are flattened on request, and an empty document has no first page |
| PdfHandler.FillAndFlattenPdfForm | app/services/pdf_handler.py:148-178 | a missing input raises `FileNotFoundError`; an empty document raises the wrapped `IndexError`; otherwise the filled pages are written |
| PdfHandler.FillOpenFailures | app/services/pdf_handler.py:173-178 | when the input cannot be read: a `PdfReadError` becomes the "... or not a valid PDF form." `PdfReadError`, a `DependencyError` becomes "PyPDF2 dependency error during form filling for <input>: ...", anything else "An unexpected error occurred during PDF form filling: ..." |
| Ocr.Pieces | app/services/ocr.py:19-22 | each recognised page contributes its header and its text, in page order |
| Ocr.OcrTextPageByPage | app/services/ocr.py:29 | the newline-joined pieces are the text written page after page; no pages give the empty text |
| Ocr.RecognizeAll | app/services/ocr.py:19-20 | recognition succeeds exactly when every page is recognised |
| Ocr.PerformOcrOnPdf | app/services/ocr.py:10-29 | a missing file raises `FileNotFoundError`; any other failure is re-raised as a plain `Exception` |
| Ocr.PerformOcrPages | app/services/ocr.py:14-29 | when every page is recognised, the result is the pages' texts in order, each under its numbered header; no pages give `""` |
| Ocr.OnePage | app/services/ocr.py:21-29 | a single page reads as its header, a blank line and its text |
| Ocr.TranslateText | app/services/ocr.py:32-42 | all-whitespace text is returned as `""` without translation; a translator failure returns the fallback text |
| Ocr.TranslateConsultsServiceIffText | app/services/ocr.py:33-39 | the translation service is consulted exactly when the text has a non-whitespace character |
| Jobs.Failure | app/routers/pdf/basic_tools.py:58-62 | an `HTTPException` passes through with its own status and detail; any other exception becomes 500 with the prefix and its message; nothing is queued |
| Jobs.TaskRemovesTarget | app/services/utils.py:42-54 | a cleanup task removes its target unless the target leads to the root |
| Jobs.TasksRemoveTargets | app/routers/pdf/basic_tools.py:51-53 | running the queued tasks removes every target and never adds an entry |
| Jobs.RunTasksAppend | app/routers/pdf/basic_tools.py:51-53 | running two queues one after the other is running their concatenation |
| Jobs.TasksShrink | app/services/utils.py:42-72 | background tasks only ever remove entries |
| Jobs.CleanTasks | app/routers/pdf/basic_tools.py:52-53 | one `cleanup_temp_file` task per path, in order |
| Jobs.CleanupsRemoveStaged | app/routers/pdf/basic_tools.py:63-66 | cleaning every staged path removes each one and adds nothing |
| Jobs.CleanupRemovesStaged | app/routers/pdf/basic_tools.py:172-173 | the `finally` cleanup of a staged input removes it, whatever happened before |
| Jobs.UnderRootIsChild | app/routers/pdf/basic_tools.py:153-154 | a `{stem}_{uuid}{suffix}` output lies directly under the root, and allocating it changes nothing |
| Jobs.SingleFileJobSpec | app/routers/pdf/basic_tools.py:151-173 | once inside `try`, the staged input is gone on every exit; 200 exactly when the transform succeeds, then the file is served and both paths are queued; otherwise the mapped error |
| Jobs.SingleFileJobLeavesNothing | app/routers/pdf/basic_tools.py:160-162 | after a successful single-file job's tasks run, neither its input nor its output exists |
| Jobs.TwoCleanups | app/routers/pdf/basic_tools.py:160-162 | cleaning the input and then the output removes both |
| Layout.TextFromSlots | app/routers/convert/conversion.py:113-120 | the drawn lines, read back from their slots, are the lines of the text |
| Layout.TextLayoutSpec | app/routers/convert/conversion.py:106-123 | line i is drawn on page i / 51 at x 50, y 750 - 14 (i % 51), with one page break per full page |
| Layout.RowSpots | app/routers/convert/conversion.py:142-150 | the row loop gives one spot per row |
| Layout.RowSpotsClosed | app/routers/convert/conversion.py:141-150 | row r of the loop sits at its closed-form spot: the rows that still fit on the current page, then 59 rows per page |
| Layout.CsvLayoutSpec | app/routers/convert/conversion.py:125-153 | header cell c is drawn at (50 + 100c, 750) on page 0; row r < 57 at 726 - 12r on page 0, row 57 + j on page 1 + j / 59 at 750 - 12 (j % 59); no trailing empty page |
| Layout.RowDrawsSpec | app/routers/convert/conversion.py:148-149 | cell i of a row is drawn at x 50 + 100i, at the row's height and page |
| Conversion.Glob | app/routers/convert/conversion.py:53 | every entry found is a listed entry directly inside the directory whose name matches `*.{format}` |
| Conversion.GlobFindsEvery | app/routers/convert/conversion.py:53-55 | when a matching entry is listed, the glob finds something |
| Conversion.FindOutputSpec | app/routers/convert/conversion.py:47-60 | the expected output is used when it exists, else the first glob match; with neither, the error is raised |
| Conversion.LibreOfficeCompleted | app/routers/convert/conversion.py:41-60 | a completed run returns the found output |
| Conversion.LibreOfficeMkdirFails | app/routers/convert/conversion.py:35 | a failing `mkdir` of the output directory raises its `OSError` before soffice runs, changing nothing |
| Conversion.LibreOfficeRunFails | app/routers/convert/conversion.py:61-68 | a non-zero exit, a missing binary and a timeout each become their own 500 |
| Conversion.PdfToAnyNameSpec | app/routers/convert/conversion.py:456-457 | the output name ends in `.{format}`, and is left alone when it already does |
| Conversion.LowerIdempotent | app/routers/convert/conversion.py:479 | lowering an already lowered format changes nothing |
| Conversion.MediaTypeSpec | app/routers/convert/conversion.py:463-479 | each known format gets its own media type; any other gets `application/octet-stream` |
| Conversion.RouteAgreesWithGuards | app/routers/convert/conversion.py:395-413 | what `text_to_pdf`, `images_to_pdf` and `pptx_to_pdf` accept, `any_to_pdf` sends to the same converter; exactly the listed content types are supported |
| Conversion.AmongIsIn | app/routers/convert/conversion.py:399-409 | the element-by-element test the dispatch uses on its content-type lists holds exactly when the type is in the list, as Python's `in` does |
| Conversion.ImagePaths | app/routers/convert/conversion.py:78-79 | page i is saved as `{stem}_page_{i+1}.{format}` in the output directory |
| Conversion.WriteAllReturnsPaths | app/routers/convert/conversion.py:76-81 | a completed image loop returns every path, in order |
| Conversion.PdfToImagesNames | app/routers/convert/conversion.py:73-83 | one image path per rendered page, path i being page i + 1's name in the output directory |
| Conversion.ImageNamesDistinct | app/routers/convert/conversion.py:78 | the image names are pairwise distinct |
| Conversion.ImageNameOrdinary | app/routers/convert/conversion.py:78-79 | each image name is a single ordinary component |
| Conversion.ImageNameNotUpload | app/routers/convert/conversion.py:78 | no page image takes the name of the document it was rendered from |
| Conversion.WriteAllKeeps | app/routers/convert/conversion.py:76-81 | writing the images into an existing directory keeps the tree well formed and every other entry as it was |
| Conversion.WriteAllHolds | app/routers/convert/conversion.py:76-81 | writing images under distinct names directly into an existing directory leaves each path holding its own image |
| Conversion.ImagePathsIn | app/routers/convert/conversion.py:78-79 | the page paths are entries directly inside the output directory, no two alike |
| Conversion.PdfToImagesWritesPages | app/routers/convert/conversion.py:73-83 | after rendering, reading `<stem>_page_<k+1>.<format>` in the output directory gives page k's image exactly as the library rendered it |
| Conversion.PdfToImagesKeepsInput | app/routers/convert/conversion.py:171-179 | the staged PDF still holds its bytes after the images are written |
| Conversion.OpenImages | app/routers/convert/conversion.py:89-92 | the opened pictures are, one by one, what Pillow makes of each path's file |
| Conversion.ConvertImagesToPdfLib | app/routers/convert/conversion.py:85-95 | no images raises `ValueError`; an image that fails to open passes its error on with nothing written; otherwise the outcome is Pillow's save of the opened images, in order, to the output path |
| Conversion.SplitExtSpec | app/routers/convert/conversion.py:94 | the extension Pillow reads from the output path is empty or a dot followed by dot-free text ending the name; a name without a dot, or with only leading dots, has none |
| Conversion.SavePictures | app/routers/convert/conversion.py:94 | an extension missing from Pillow's registry raises `ValueError("unknown file extension: …")`, and a format without a multi-frame writer raises `KeyError` with the format's name, both with nothing touched; a failure to open the file passes on its `OSError`; a success writes to the path exactly what the multi-frame writer for that extension produced |
| Conversion.NoExtensionRefused | app/routers/convert/conversion.py:94 | an output name without a dot, such as `scan`, raises "unknown file extension: " and writes nothing |
| Conversion.PagesTextJoin | app/routers/convert/conversion.py:98-102 | the accumulated text is the page texts joined by newlines, plus a final newline |
| Conversion.PagesTextSplits | app/routers/convert/conversion.py:98-102 | when no page text holds a newline, splitting the output on newlines gives the pages back, then one empty piece |
| Conversion.ConvertPdfToTextLib | app/routers/convert/conversion.py:97-104 | the text file written holds the encoded page texts, each followed by a newline |
| Conversion.ConvertTextToPdfLib | app/routers/convert/conversion.py:106-123 | the PDF written is the rendering of the decoded text's lines, as the text layout places them |
| Conversion.ConvertCsvToPdfLib | app/routers/convert/conversion.py:125-153 | the PDF written is the rendering of the table pandas reads, as the table layout places it |
| Conversion.TreeEntriesHold | app/routers/convert/conversion.py:179 | every file below the directory that the walk visits becomes an entry, named by its relative path and holding its bytes |
| Conversion.ArchiveDir | app/routers/convert/conversion.py:179 | the archive's directory is left alone when it exists and otherwise made by `os.makedirs`; existing entries are kept |
| Conversion.MakeArchiveSpec | app/routers/convert/conversion.py:178-185 | a failure to make the archive's directory is passed on; the archive is written exactly where the endpoint serves from (`with_suffix(".zip")`), and holds an entry for each file directly inside the directory |
| Conversion.MakeArchiveCreatesDir | app/routers/convert/conversion.py:178-179 | an `output_zip_filename` inside a directory that does not exist yet makes that directory and writes the archive into it |
| ConversionRouter.StagedPaths | app/routers/convert/conversion.py:171 | each upload is staged at `workspace / filename`, the client's name used verbatim |
| ConversionRouter.WorkspaceJob | app/routers/convert/conversion.py:167-169 | every conversion request that passes its guards draws exactly one uuid, whatever happens after |
| ConversionRouter.Workspace | app/routers/convert/conversion.py:172-190 | a file answer is 200 with the endpoint's name and media type and queues the workspace removal; any other answer queues nothing |
| ConversionRouterFacts.CaughtSpec | app/routers/convert/conversion.py:187-188 | an exception always ends in an error answer with no background task and the state it left; an `HTTPException` keeps its status and detail exactly where the endpoint re-raises it, anything else is a 500 whose detail starts with the endpoint's message |
| ConversionRouterFacts.WorkspaceUnfolds | app/routers/convert/conversion.py:167-171 | with a fresh uuid the workspace is the new, empty directory `TEMP_DIR/<uuid>`, and the request continues in it |
| ConversionRouterFacts.WorkspaceAnswers | app/routers/convert/conversion.py:172-186 | a file answer means staging and the conversion both succeeded; it serves the path the conversion returned, from the state it left |
| ConversionRouterFacts.TasksClean | app/routers/convert/conversion.py:185 | the background only removes: the workspace is gone afterwards, and for `pdf_to_images` the served archive too |
| ConversionRouterFacts.WriteAllReads | app/routers/convert/conversion.py:76-81 | writing distinct new files directly into an existing directory leaves file i holding data i, the tree well formed |
| ConversionRouterFacts.StagedPathsInside | app/routers/convert/conversion.py:284-288 | uploads with distinct ordinary names are staged at distinct entries directly inside the workspace, upload i at `workspace/filename_i` |
| ConversionRouterFacts.StageOne | app/routers/convert/conversion.py:171-174 | staging one upload with an ordinary name into the empty workspace writes exactly that file, which reads back as the uploaded bytes |
| ConversionRouterFacts.WorkspaceOne | app/routers/convert/conversion.py:167-176 | under a fresh uuid, a one-file request stages its upload in the new workspace and is answered from what the conversion does to that staged state |
| ConversionRouterFacts.WorkspaceOneOutcome | app/routers/convert/conversion.py:172-190 | the conversion's output is served with a 200 and the workspace removal queued; a re-raised `HTTPException` is answered as it is; any other exception is a 500 in the endpoint's words |
| ConversionRouterFacts.WorkspaceOneRefused | app/routers/convert/conversion.py:412-425 | an `HTTPException` raised by the conversion, with the workspace left as staging made it, reaches the client with its own status and detail, and the staged workspace is left behind |
| ConversionRouterFacts.WorkspaceOneServed | app/routers/convert/conversion.py:418-423 | a conversion that returns its output is answered with a 200 serving that path under the endpoint's name and media type, with the workspace removal (and the output's, when unlinked) queued |
| ConversionRouterFacts.WorkspaceJobNames | app/routers/convert/conversion.py:418-423 | whenever a workspace endpoint answers with a file, the file carries the endpoint's chosen name and media type |
| ConversionRouterFacts.PdfToImagesStepsHold | app/routers/convert/conversion.py:176-182 | a successful run serves `TEMP_DIR/<output_zip_filename>` with its suffix made `.zip`, an archive holding every rendered page k as `<stem>_page_<k+1>.<format>` with the library's image, and the uploaded document itself under its own name |
| ConversionRouterFacts.PagesArchived | app/routers/convert/conversion.py:176-179 | page images readable in the workspace are entries of the archive made of it |
| ConversionRouterFacts.PdfToImagesServesArchive | app/routers/convert/conversion.py:157-190 | an answered `pdf_to_images` had a PDF content type, is a 200 serving an archive as `application/zip` under the client's zip name that holds the upload and every rendered page image, and queues removal of the workspace and of the archive |
| ConversionRouterFacts.PdfToTextServes | app/routers/convert/conversion.py:192-223 | an answered `pdf_to_text` serves `workspace/output_filename` as `text/plain`, holding every page's text of the upload followed by a newline, and queues the workspace removal |
| ConversionRouterFacts.PdfToAnyServes | app/routers/convert/conversion.py:443-486 | an answered `pdf_to_any` serves exactly what LibreOffice produced from the staged upload in the fresh workspace, and queues the workspace removal |
| ConversionRouterFacts.PdfToAnyAnswerNamed | app/routers/convert/conversion.py:456-484 | the answer is named with the `.{target_format}` extension (the client's name when it already ends so, otherwise the upload's stem) and carries the format's media type |
| ConversionRouterFacts.OfficeErrorsPassThrough | app/routers/convert/conversion.py:487-488 | a LibreOffice `HTTPException` reaches the client with the helper's own status and detail, not re-wrapped, and queues nothing |
| ConversionRouterFacts.ImagesToPdfServes | app/routers/convert/conversion.py:264-302 | an answered `images_to_pdf` with distinct ordinary names had a non-empty list of JPEG/PNG parts and serves `workspace/output_filename`, which holds what Pillow's writer for that name's extension made of one picture per upload, picture i decoded from upload i |
| ConversionRouterFacts.PicturesServed | app/routers/convert/conversion.py:282-298 | once staged under distinct ordinary names, an answered `images_to_pdf` conversion serves what Pillow's writer, chosen by the extension of `output_filename`, saves from one picture per upload, each decoded from its own upload, in upload order |
| ConversionRouterFacts.ImagesToPdfNoSaveAll | app/routers/convert/conversion.py:282-298 | once the images are staged and opened, an `output_filename` whose format has no multi-frame writer is answered 500 "Conversion failed: '<FORMAT>'", with the workspace, and any file of that name, left as they were |
| ConversionRouterFacts.ImagesToPdfUnknownExtension | app/routers/convert/conversion.py:282-298 | once the images are staged and opened, an `output_filename` whose extension Pillow does not know is answered 500 "Conversion failed: unknown file extension: …", with no cleanup queued |
| ConversionRouterFacts.TextToPdfServes | app/routers/convert/conversion.py:304-335 | an answered `text_to_pdf` had `text/plain` and serves `workspace/output_filename`: the rendering of the text layout of the upload's decoded lines |
| ConversionRouterFacts.PdfToImagesGuard | app/routers/convert/conversion.py:164-169 | anything but `application/pdf` is a 400 with the state unchanged; a PDF draws exactly one uuid |
| ConversionRouterFacts.PdfToTextGuard | app/routers/convert/conversion.py:198-203 | anything but `application/pdf` is a 400 with the state unchanged; a PDF draws exactly one uuid |
| ConversionRouterFacts.PdfToPptxGuard | app/routers/convert/conversion.py:237-242 | anything but `application/pdf` is a 400 with the state unchanged; a PDF draws exactly one uuid |
| ConversionRouterFacts.PdfToAnyGuard | app/routers/convert/conversion.py:443-448 | anything but `application/pdf` is a 400 with its own message and the state unchanged; a PDF draws exactly one uuid |
| ConversionRouterFacts.TextToPdfGuard | app/routers/convert/conversion.py:310-315 | anything but `text/plain` is a 400 with the state unchanged; a text upload draws exactly one uuid |
| ConversionRouterFacts.PptxToPdfGuard | app/routers/convert/conversion.py:346-351 | anything but the PPTX and PPT types is a 400 with the state unchanged; those draw exactly one uuid |
| ConversionRouterFacts.PptxToPdfRefuses | app/routers/convert/conversion.py:346-347 | a content type other than PPTX and PPT is answered 400 "Only PPTX or PPT files are allowed." with the state unchanged |
| ConversionRouterFacts.PptxToPdfDraws | app/routers/convert/conversion.py:349-351 | an accepted PowerPoint upload draws exactly one uuid |
| ConversionRouterFacts.ImagesToPdfGuards | app/routers/convert/conversion.py:270-280 | an empty list is a 400, then any part that is not JPEG or PNG is a 400, both with the state unchanged; otherwise exactly one uuid is drawn |
| AnyToPdfFacts.AnyToPdfAsWrittenNeverServesLibraries | app/routers/convert/conversion.py:395-416 | as written, a CSV, text or image upload is never answered with a file, whatever the library does |
| AnyToPdfFacts.LibraryAsWrittenErrs | app/routers/convert/conversion.py:395-416 | as written, the library branches of the workspace step always end in an error |
| AnyToPdfFacts.AnyToPdfAsWrittenFails | app/routers/convert/conversion.py:383-427 | as written, a CSV, text or image upload the library converts is answered 500 "Conversion to PDF failed: 'str' object has no attribute 'exists'" |
| AnyToPdfFacts.AnyToPdfServesLibraries | app/routers/convert/conversion.py:383-423 | with the intended check, such an upload is answered 200 with the PDF at `workspace/output_filename`, and the workspace removal is queued |
| AnyToPdfFacts.LibraryStepWrites | app/routers/convert/conversion.py:395-401 | a library branch that succeeds returns `workspace/output_filename`, which then exists |
| AnyToPdfFacts.LibraryAsWrittenRaises | app/routers/convert/conversion.py:415 | as written, the helper's `str` result turns its success into the `AttributeError` of `.exists()` |
| AnyToPdfFacts.LibraryCorrectedServes | app/routers/convert/conversion.py:415-416 | with the intended check, the helper's existing output is let through unchanged |
| AnyToPdfFacts.AnyToPdfStagesFirst | app/routers/convert/conversion.py:383-413 | an unsupported type is a 400 naming it, answered after the workspace was made and the upload staged, both left behind |
| AnyToPdfFacts.UnsupportedStep | app/routers/convert/conversion.py:412-413 | the unsupported branch raises the 400 naming the content type and leaves the workspace as it is |
| AnyToPdfFacts.LibraryChecked | app/routers/convert/conversion.py:395-416 | a CSV, text or image upload goes to its library helper, whose result is then checked |
| AnyToPdfFacts.AsWrittenDetail | app/routers/convert/conversion.py:426-427 | the as-written 500 reads "Conversion to PDF failed: 'str' object has no attribute 'exists'" |
| PdfBasicTools.StageAll | app/routers/pdf/basic_tools.py:39-45 | the loop stages at most one path per upload; it ends without an error exactly when every upload was staged; what stops it is a 400 or an ordinary exception |
| PdfBasicTools.StageAllShape | app/routers/pdf/basic_tools.py:40-45 | every staged upload had a name ending in `.pdf` (in any case) and was saved two levels below the root |
| PdfBasicTools.StageAllStops | app/routers/pdf/basic_tools.py:41-42 | a loop stopped by a name check stopped at the first upload after the staged ones, with "File {name} is not a PDF." |
| PdfBasicTools.StageAllSpec | app/routers/pdf/basic_tools.py:40-45 | with fresh uuids and PDF names, every upload is staged at a new path holding exactly its bytes, nothing present is touched, and two uuids are drawn per upload |
| PdfBasicTools.StageAllStep | app/routers/pdf/basic_tools.py:40-45 | past a PDF name, a failed save stops the loop with nothing staged, and a successful one puts its path first and continues with the rest |
| PdfBasicTools.StageFirst | app/routers/pdf/basic_tools.py:44-45 | on fresh uuids the first upload is saved at a new path holding its bytes, and the loop continues with the rest |
| PdfBasicTools.MergeNeedsTwo | app/routers/pdf/basic_tools.py:27-30 | fewer than two files is a 400 with the matching detail, changes nothing and queues nothing |
| PdfBasicTools.MergeUnfolds | app/routers/pdf/basic_tools.py:32-45 | past the count check, the output name draws a uuid before the `try`, then the staging loop runs |
| PdfBasicTools.MergeCleansStaged | app/routers/pdf/basic_tools.py:63-66 | past the count check, every staged upload is gone when the response is sent, whichever way the request ended |
| PdfBasicTools.MergeStopsOnNonPdf | app/routers/pdf/basic_tools.py:40-42 | a non-PDF name stops the request at that upload with its 400 and "File {name} is not a PDF." |
| PdfBasicTools.MergeStagedCleans | app/routers/pdf/basic_tools.py:63-66 | the `finally` loop removes every staged input, whatever the loop or the merge raised |
| PdfBasicTools.MergeSuccess | app/routers/pdf/basic_tools.py:35-56 | a success serves `{stem}_{uuid}{suffix}` under the root as `output_filename`, queues the output then each input, and running that queue removes them all |
| PdfBasicTools.MergeStagedSuccess | app/routers/pdf/basic_tools.py:48-56 | a successful `try` block staged everything; after its queue runs, neither the output nor any input remains |
| PdfBasicTools.MergeOfUploads | app/routers/pdf/basic_tools.py:40-56 | with fresh uuids and PDF names, the answer is 200 exactly when the merge succeeds, and the merged file reads back as the uploads' pages in upload order |
| PdfBasicTools.MergeStagedStatus | app/routers/pdf/basic_tools.py:48-62 | with every upload staged, the answer is 200 exactly when `merge_pdfs` succeeds |
| PdfBasicTools.ReadEntries | app/routers/pdf/basic_tools.py:105-108 | the entries are each part read in order, named by its base name; reading fails, with an `OSError`, exactly when some part is not a file |
| PdfBasicTools.WriteZip | app/routers/pdf/basic_tools.py:104-108 | the archive file is created first, then filled from the parts as they are after its creation; a success leaves it holding exactly those entries |
| PdfBasicTools.SplitBody | app/routers/pdf/basic_tools.py:89-108 | a success yields the non-empty list of parts `split_pdf` produced; a failure is an ordinary exception or the dedicated 500 |
| PdfBasicTools.SplitArchive | app/routers/pdf/basic_tools.py:98-108 | after a successful `try` block, `dir/{stem}_split.zip` holds one entry per part, in part order, each named by the part's base name |
| PdfBasicTools.SplitUnfolds | app/routers/pdf/basic_tools.py:80-92 | a split stages the input and makes the job directory before the `try`, then runs the `try` block |
| PdfBasicTools.SplitNothingIs500 | app/routers/pdf/basic_tools.py:94-96 | a splitter that yields nothing is the 500 "Failed to split PDF or no pages matched.", and the staged input is removed all the same |
| PdfBasicTools.SplitCleansInput | app/routers/pdf/basic_tools.py:124-126 | the staged input is gone on every exit from the `try` block |
| PdfBasicTools.SplitStagedSuccess | app/routers/pdf/basic_tools.py:110-117 | a success serves the archive `{stem}_split.zip`, queues the input, each part and then the directory, and running that queue removes the input and the whole directory |
| PdfBasicTools.CleanAround | app/routers/pdf/basic_tools.py:110-114 | running a queue that starts with the input's cleanup and ends with the directory's, on a file system that no longer holds the input, leaves neither the input nor the directory |
| PdfBasicTools.SplitSuccess | app/routers/pdf/basic_tools.py:78-117 | a successful split had a PDF name, staged the upload and made the job directory; it serves the archive inside that directory, and its queue removes the input and the directory |
| PdfBasicTools.TermsList | app/routers/pdf/basic_tools.py:141-149 | the terms are accepted exactly when they decode to a JSON list, whose items are kept as they are; otherwise a 400 |
| PdfBasicTools.FormObject | app/routers/pdf/basic_tools.py:225-233 | the form is accepted exactly when it decodes to a JSON object, whose fields are kept; otherwise a 400 |
| PdfBasicTools.RedactValidation | app/routers/pdf/basic_tools.py:138-149 | 400 exactly for a non-PDF name, undecodable terms or non-list terms, each with its own detail, no state change and no task; no valid request gets a 400 |
| PdfBasicTools.FillValidation | app/routers/pdf/basic_tools.py:222-233 | 400 exactly for a non-PDF name, an undecodable form or a non-object form, each with its own detail, no state change and no task; no valid request gets a 400 |
| PdfBasicTools.RedactRun | app/routers/pdf/basic_tools.py:151-173 | once staged, the input is removed; 200 exactly when `redact_pdf` succeeds, serving `{stem}_{uuid}{suffix}` and queueing input and output; otherwise 500 "Failed to redact PDF: ..." |
| PdfBasicTools.ScrubRun | app/routers/pdf/basic_tools.py:187-209 | once staged, the input is removed; 200 exactly when `scrub_pdf_metadata` succeeds, serving `{stem}_{uuid}{suffix}`; otherwise 500 "Failed to scrub metadata: ..." |
| PdfBasicTools.FillRun | app/routers/pdf/basic_tools.py:235-257 | once staged, the input is removed; 200 exactly when `fill_and_flatten_pdf_form` succeeds, serving `{stem}_{uuid}{suffix}`; otherwise 500 "Failed to fill PDF form: ..." |
| PdfBasicTools.DownloadAsWrittenNeverServes | app/routers/pdf/basic_tools.py:262-271 | as written, a missing file is 404 and an existing one is 500, because `starts_with` raises; the state is untouched |
| PdfBasicTools.DownloadServesOnlyInside | app/routers/pdf/basic_tools.py:262-279 | corrected, 404 exactly for a non-file, 200 exactly for a file whose resolved path lies inside the root, 403 for a file outside; what is served is that entry, with the guessed media type |
| PdfBasicTools.DownloadParentForbidden | app/routers/pdf/basic_tools.py:264-271 | a `..` directory name reaching a file beside the root is refused with 403 when corrected, and is a 500 as written |
| PdfBasicTools.DownloadBesideRoot | app/routers/pdf/basic_tools.py:264-271 | `TEMP_DIR / ".." / x` normalises to `x` beside the root, which lies outside the root unless `x` is the root's own name |
| PdfAdvancedTools.StringTerms | app/routers/pdf/advanced_tools.py:39-45 | the terms are accepted exactly when they decode to a list of strings, and are those strings |
| PdfAdvancedTools.FormFields | app/routers/pdf/advanced_tools.py:179-185 | the form is accepted exactly when it decodes to an object, and is its fields |
| PdfAdvancedTools.WriteText | app/routers/pdf/advanced_tools.py:105-106 | the mounted router writes the text; without the `aiofiles` import the write raises `NameError` |
| PdfAdvancedTools.RedactValidation | app/routers/pdf/advanced_tools.py:34-45 | 400 exactly for a non-PDF name, undecodable terms or terms that are not a list of strings, each with its own detail and no state change |
| PdfAdvancedTools.FillValidation | app/routers/pdf/advanced_tools.py:174-185 | 400 exactly for a non-PDF name, undecodable form or non-object form, each with its own detail and no state change |
| PdfAdvancedTools.NameCheckOnly | app/routers/pdf/advanced_tools.py:86-89 | scrub and OCR answer 400 exactly for a name not ending in `.pdf` |
| PdfAdvancedTools.OcrBodyRaises | app/routers/pdf/advanced_tools.py:94-113 | the OCR body raises only ordinary exceptions, never an `HTTPException` |
| PdfAdvancedTools.OutputInFreshDir | app/routers/pdf/advanced_tools.py:48-50 | on fresh uuids the output is the client's name in a new directory directly under the root |
| PdfAdvancedTools.RedactRun | app/routers/pdf/advanced_tools.py:48-70 | once staged, 200 exactly when `redact_pdf` succeeds, else 500 "Failed to redact PDF: …"; the input is removed either way |
| PdfAdvancedTools.ScrubRun | app/routers/pdf/advanced_tools.py:138-159 | once staged, 200 exactly when `scrub_pdf_metadata` succeeds; the input is removed either way |
| PdfAdvancedTools.FillRun | app/routers/pdf/advanced_tools.py:186-206 | once staged, 200 exactly when `fill_and_flatten_pdf_form` succeeds; the input is removed either way |
| PdfAdvancedTools.NoTargetNoTranslation | app/routers/pdf/advanced_tools.py:98-102 | without a non-empty target language, the translator does not affect the response |
| PdfAdvancedTools.OcrRun | app/routers/pdf/advanced_tools.py:91-121 | a staged OCR request is 200 exactly when recognition and the write succeed; the file then holds the encoded OCR text or its translation |
| PdfAdvancedTools.LegacyOcrNeverAnswers | app/routers/advanced_tools.py:70-95 | the older router always answers OCR with 500 and queues nothing; once the text is ready, the detail is the `NameError` |
| PdfAdvancedTools.LegacyOcrBodyFails | app/routers/advanced_tools.py:73-82 | without `aiofiles` the OCR body always raises an ordinary exception |
| PdfBatchTools.OutputNameOrdinary | app/routers/pdf/batch_tools.py:49 | every per-document output name is a single ordinary component |
| PdfBatchTools.Item | app/routers/pdf/batch_tools.py:47-55 | a non-PDF member is passed over; a PDF gets an output alone in a new directory under the root; a service failure is swallowed |
| PdfBatchTools.ItemOutputPath | app/routers/pdf/batch_tools.py:47-49 | the output drawn for a PDF member is `root/<uuid>/<prefixed name>`, a normal path alone in its own directory under the root |
| PdfBatchTools.Loop | app/routers/pdf/batch_tools.py:47-55 | the loop yields at most one output per member |
| PdfBatchTools.LoopAppend | app/routers/pdf/batch_tools.py:47-55 | the loop over a concatenation is the loop over the first part, resumed on the second |
| PdfBatchTools.LoopOutcome | app/routers/pdf/batch_tools.py:47-55 | the loop aborts only with an ordinary exception, and every output lies in its own directory |
| PdfBatchTools.PdfOnly | app/routers/pdf/batch_tools.py:48 | the kept members all carry a `.pdf` suffix and come from the extraction |
| PdfBatchTools.LoopIgnoresNonPdf | app/routers/pdf/batch_tools.py:47-48 | the loop over the extraction equals the loop over its PDFs alone |
| PdfBatchTools.ItemOfSpec | app/routers/pdf/batch_tools.py:47-55 | the batch iteration skips non-PDFs, aborts only with ordinary exceptions, and isolates each output |
| PdfBatchTools.LoopNoPdf | app/routers/pdf/batch_tools.py:47-48 | with no PDF member, the loop does nothing at all |
| PdfBatchTools.BatchBody | app/routers/pdf/batch_tools.py:41-60 | for either containment test, the only HTTP errors of the body are 400 "No PDF files found…" and the 500 for nothing processed |
| PdfBatchTools.BatchRedactValidation | app/routers/pdf/batch_tools.py:26-34 | exactly `*.zip` archives with a list of string terms are accepted; rejections are 400 with their own detail and no state change |
| PdfBatchTools.BatchNameCheck | app/routers/pdf/batch_tools.py:88-89 | the OCR and scrub batches check only that the name ends in `.zip` |
| PdfBatchTools.BatchStagedCleans | app/routers/pdf/batch_tools.py:75-77 | the staged archive and the extraction directory are gone on every exit |
| PdfBatchTools.BatchEmptyArchive | app/routers/pdf/batch_tools.py:44-45 | an archive with no members is 400 "No PDF files found in the uploaded ZIP archive." |
| PdfBatchTools.BatchNoPdfMembers | app/routers/pdf/batch_tools.py:44-58 | an extraction that yields paths, none of them a PDF, is not refused as empty, but answered with the 500 for nothing processed; only the corrected containment test yields paths (see BatchStagedAsWritten) |
| PdfBatchTools.BatchBodyOutputs | app/routers/pdf/batch_tools.py:47-58 | a successful body has at least one output, each in its own directory; only the corrected containment test lets the body succeed |
| PdfBatchTools.BatchTasksRemove | app/routers/pdf/batch_tools.py:62-66 | the queued tasks name the archive, the extraction directory, each output and the output archive, and running them removes every one; the queue is built only on success, which needs the corrected extraction |
| PdfBatchTools.BatchStagedSuccess | app/routers/pdf/batch_tools.py:60-68 | a success serves the output archive, and its queue removes everything the request made; as written no success happens (BatchStagedAsWritten), so this describes the corrected extraction |
| PdfBatchTools.BatchJobCleanup | app/routers/pdf/batch_tools.py:36-77 | a staging failure is a bare 500 with no cleanup; once staged, the archive and directory are removed on every exit |
| PdfBatchTools.BatchStagedAsWritten | app/routers/pdf/batch_tools.py:41-73 | with the extraction as written, the staged body never answers 200: a failed extraction is the 500 with the batch prefix, a successful one has yielded no path and is the 400 for no PDFs |
| PdfBatchTools.BatchAsWrittenFileMember | app/routers/pdf/batch_tools.py:41-73 | with the extraction as written, an archive holding any file member is answered 500 "Failed to perform batch …: Failed to extract ZIP archive: 'PosixPath' object has no attribute 'starts_with'" |
| PdfBatchTools.BatchJobAsWritten | app/routers/pdf/batch_tools.py:36-77 | with the extraction as written, a batch job never answers 200 and never queues a cleanup |
| PdfBatchTools.BatchAsWrittenNeverServes | app/routers/pdf/batch_tools.py:19-190 | with the extraction as written, none of the three batch endpoints answers 200 for any input |
| LegacyBasicTools.LegacyMergeNeedsTwo | app/routers/basic_tools.py:23-26 | fewer than two files is a 400 with the matching detail, changes nothing and queues nothing |
| LegacyBasicTools.LegacyMergeUnfolds | app/routers/basic_tools.py:28-54 | past the count check, the output comes from `get_temp_file_path(output_filename)` before the `try`, then the staging loop and the shared merge tail run |
| LegacyBasicTools.LegacyMergeCleans | app/routers/basic_tools.py:29-54 | a failure to make the output's directory is unhandled; otherwise every staged upload is gone when the response is sent |
| LegacyBasicTools.LegacyMergeAnswered | app/routers/basic_tools.py:23-45 | only a request with at least two uploads whose output directory was made can be answered 200 |
| LegacyBasicTools.TempPathOfName | app/services/utils.py:33-36 | `get_temp_file_path(name)` puts a plain name directly inside a new `root/<uuid>` directory, as a normal path, while an absolute name replaces that directory |
| LegacyBasicTools.LegacyMergeServes | app/routers/basic_tools.py:29-45 | a success serves the file at the path `get_temp_file_path` returned, under the requested name; running its queue removes the output and every staged input |
| LegacyBasicTools.LegacyMergeSuccess | app/routers/basic_tools.py:29-45 | with a plain file name, a success serves that very name inside a new directory under the root, and running its queue removes it |
| LegacyBasicTools.LegacyMergeAbsoluteName | app/routers/basic_tools.py:29-45 | an absolute output name such as `/x` escapes the temporary area: the merge is served from `/x` itself |
| LegacyBasicTools.SlashNameComponents | app/services/utils.py:36 | `/x` parses to the single component `x` at the top of the tree, and is absolute |
| LegacyBasicTools.LinkRoundTrip | app/routers/basic_tools.py:87-100 | the example link of a file two levels under the root routes back to its directory and base name, which the download joins onto the root to give that file again |
| LegacyBasicTools.LinkRoutes | app/routers/basic_tools.py:87-98 | the example link of `root/a/b` is matched by the download route with `temp_dir_name` a and `filename` b |
| LegacyBasicTools.LegacySplitRejectsNonPdf | app/routers/basic_tools.py:68-74 | a non-PDF name is a 400 with its detail that changes nothing; otherwise the upload is staged and the directory made (a failure there is unhandled) before the `try` |
| LegacyBasicTools.LegacySplitStagedCleans | app/routers/basic_tools.py:74-95 | the staged input is gone on every exit from the `try` block; a splitter yielding nothing is the dedicated 500 |
| LegacyBasicTools.LegacySplitStagedSuccess | app/routers/basic_tools.py:75-87 | a success answers JSON with the number of parts and the first part's download link, and running its queue removes the input and the directory |
| LegacyBasicTools.LegacyDownloadSpec | app/routers/basic_tools.py:98-108 | as written, 404 for a non-file and 500 for every file; corrected, 200 exactly for a file inside the root, always as `application/pdf` |
| Routes.FirstMatch | app/main.py:31-34 | the chosen route serves the request, and no earlier route does |
| Routes.DispatchAppend | app/main.py:31-37 | routes mounted later are consulted only for requests the earlier ones do not serve |
| Routes.DispatchMounted | app/main.py:31-37 | the application asks each router in the order it is included, then the root route |
| Routes.RedactServedByBasicRouter | app/main.py:31-33 | `POST /api/pdf/redact` is answered by the basic router's redaction |
| Routes.AdvancedRedactPlaced | app/routers/pdf/advanced_tools.py:16-23 | the advanced redaction is the advanced router's first route and appears nowhere else |
| Routes.AdvancedRedactShadowed | app/main.py:31-33 | no request ever reaches the advanced router's redaction |
| Routes.MountedNoLegacy | app/main.py:4-7 | none of the mounted routers leads to an older router |
| Routes.LegacyNotMounted | app/main.py:31-34 | no request reaches an older router, though those routers' own paths would serve one |
| Routes.BatchAtRoot | app/routers/pdf/batch_tools.py:13-19 | `POST /batch_redact` is served at the root of the application, not under `/api/pdf` |
| Routes.ServedRedactAcceptsAnyList | app/routers/pdf/basic_tools.py:141-149 | at the served redaction path, a terms list with a non-string item is not refused with 400, though the shadowed advanced check would refuse it |

## Left out

- I/O and library internals: PDF parsing and writing, Tesseract, the
  translator service, LibreOffice, Pillow, pandas and reportlab page
  rendering, and `zipfile` parsing are oracles. The model fixes only what
  the code does with their answers.
- Concurrency: requests are modelled one at a time, and background tasks run
  after the response in queue order. The `print` logging is not modelled.
- CORS configuration (`app/main.py:15-29`) and the application metadata are
  not part of this model. `app/services/security.py` and the
  `encrypt_output`/`password` form fields are not part of this model either,
  and neither are the `encrypt`/`decrypt` placeholders of
  `app/services/utils.py:74-80`.
- The `if not file` / `if not files` checks: FastAPI rejects a request
  without a file before the handler runs, so these branches cannot be
  taken.
- Symbolic links, permissions and free-space failures: the file system is
  a pure tree. Any write failure is abstracted to the `OSError` an oracle
  may raise.
- `Conversion.Glob`: glob metacharacters in the output format (the pattern
  is `*.{output_format}`) are treated literally.
- `Conversion.MakeArchiveSpec`: the directory entries `make_archive` also
  writes are not modelled, only the file entries.
- `PyStr.Lower`, `PyStr.Upper`: only ASCII letters change case. Python's
  full Unicode case mapping is not modelled.
- `PyPath.Render`: every path is modelled from the file system's root, so
  it renders with a leading `/`. That matches a deployment whose
  `TEMP_FILES_DIR` is absolute. The default roots are relative: `temp_files`
  (app/services/utils.py:10) and `temp_conversions`
  (app/routers/convert/conversion.py:25). With those defaults, Python renders
  the paths in error details without the leading `/`.
- `FileSystem.Quoted`: an `OSError` names its path by `repr`, which the
  model writes as the path's text between single quotes. Python's `repr`
  switches to double quotes for a text holding a single quote, and escapes
  backslashes and unprintable characters; the model does not.
- `Conversion.SavePictures`: Pillow's registry of extensions, the formats
  that have a multi-frame writer, and the writers themselves are parameters
  of the model. Loading the plugins (`Image.init()`) and the
  writers' own options are not modelled. The extension is lowered with
  `PyStr.Lower`, so only ASCII letters are folded.
- `Routes.FirstMatch`: a 404 and a 405 are not distinguished. Path
  parameters match one non-empty segment, then anything.
- `PdfBatchTools.Loop`: for the OCR and scrub batches, the contents of the
  outputs are not stated beyond the loop's shape and the placement of
  each output.
- `ConversionRouterFacts.ImagesToPdfServes`: this requires the uploads'
  names to be distinct ordinary components. Two uploads of the same name
  overwrite each other in the workspace, and the model states nothing
  for that case.
- `ConversionRouterFacts.TasksClean`: the `background=lambda: ...` of each
  conversion endpoint is run as the removal it performs. Starlette then
  awaits the lambda's `None` result and raises a `TypeError` after the
  removal has happened; that error is not modelled.
- `Conversion.RouteAgreesWithGuards`: this states the dispatch by content
  type only. The libraries' own failures are covered by the endpoint
  facts.
- The legacy routers `app/routers/basic_tools.py` and
  `app/routers/advanced_tools.py` are modelled although `app/main.py`
  never mounts them (see `Routes.LegacyNotMounted`). Their redaction,
  scrubbing and form filling match the mounted advanced router apart
  from the output allocation, and are covered by the `PdfAdvancedTools`
  members. `app/routers/conversion.py` is a duplicate of
  `app/routers/convert/conversion.py` and is modelled once.
- Integer widths: page counts and sizes are unbounded. The code never
  relies on overflow.
- `PdfHandler.ParsePart`: only the ASCII digits `0`-`9` count as digits.
  Python's `int()` also accepts every other Unicode decimal digit (category
  Nd, such as Arabic-Indic digits), so a page specification written in
  those digits is refused by the model but accepted by the service.
- `TempStorage.NewDir`, `TempStorage.NewDirFresh`: every working directory
  is modelled as `mkdir(parents=True, exist_ok=True)` of `root/<uuid>`.
  That is exact for `get_temp_file_path`. Split's
  `tempfile.mkdtemp(dir=TEMP_DIR)` (`app/routers/pdf/basic_tools.py:87`)
  and the conversion endpoints' parentless `processing_dir.mkdir(exist_ok=True)`
  (`app/routers/convert/conversion.py:169`) are approximated by it. They
  agree when the root is an existing directory and the new name is unused
  (`Ready` and `Fresh`), which every endpoint fact assumes. Outside those
  assumptions the model states nothing about how they differ: `mkdtemp`
  draws its own random name and never reuses a directory, and the
  parentless `mkdir` raises `FileNotFoundError` when the root is missing.
- `PdfHandler.ScrubOpenFailures`, `PdfHandler.FillOpenFailures`: the PDF
  library's exceptions, `DependencyError` included, are modelled as raised
  when the document is read. Exceptions PyPDF2 might raise later, while
  copying pages or writing, are not modelled separately. The write itself
  can only fail with the file system's `OSError`, which takes the generic
  branch.

## Findings

| source | as written | input that shows it | evidently intended | confidence | as-written member | corrected member |
|---|---|---|---|---|---|---|
| app/services/utils.py:92 | `Path.starts_with` does not exist. Every non-directory member raises `AttributeError`, so extraction fails. The three batch endpoints therefore never answer 200: an archive with a file member is a 500, and one with only directories is the 400 for no PDFs. The download routes at app/routers/pdf/basic_tools.py:270 and app/routers/basic_tools.py:105 answer 500 for every existing file | a ZIP holding one member `a.pdf`, posted to `/batch_redact`; a `GET /api/pdf/download_temp_file/d/a.pdf` for an existing file | containment via `is_relative_to`: keep members inside the directory, serve files inside the root | not executed | Archive.AsWrittenRejectsEveryFile, PdfBatchTools.BatchAsWrittenNeverServes, PdfBatchTools.BatchAsWrittenFileMember, PdfBasicTools.DownloadAsWrittenNeverServes | Archive.PackThenExtract, PdfBatchTools.BatchStagedSuccess, PdfBasicTools.DownloadServesOnlyInside |
| app/routers/convert/conversion.py:415 | the library helpers return `str`, and `.exists()` is called on it, so every CSV, text and image conversion in `any_to_pdf` fails with 500 | `POST /api/convert/any_to_pdf` with a `text/plain` upload | test the returned path with `Path(...).exists()`, and serve the PDF | not executed | AnyToPdfFacts.AnyToPdfAsWrittenFails | AnyToPdfFacts.AnyToPdfServesLibraries |
| app/routers/advanced_tools.py:81-82 | `aiofiles` is never imported, so every OCR request whose recognition succeeds fails with `NameError` | `POST /ocr_translate` on the older router with any readable PDF | import `aiofiles` as the mounted router does, and write the text file | not executed | PdfAdvancedTools.LegacyOcrNeverAnswers | PdfAdvancedTools.OcrRun |
