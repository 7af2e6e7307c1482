/** What every endpoint shares: the response it sends, the background tasks
    it queues to run after the response, how exceptions become HTTP errors,
    and the stage / transform / `finally` skeleton of the single-file PDF
    endpoints. */
module Jobs {
  import opened Wrappers
  import opened Errors
  import opened PyStr
  import opened PyPath
  import opened FileSystem
  import opened TempStorage
  import opened JsonValue

  /** A task run after the response has been sent. */
  datatype Task =
    | CleanFile(path: RawPath)      // cleanup_temp_file(path)
    | CleanFiles(path: RawPath)     // cleanup_temp_files(path)
    | RmTreeQuiet(path: RawPath)    // shutil.rmtree(path, ignore_errors=True)
    | UnlinkQuiet(path: RawPath)    // path.unlink(missing_ok=True)

  /** A streamed file, a JSON document, or the `detail` of an error. */
  datatype Body =
    | FileBody(path: RawPath, filename: string, mediaType: string)
    | JsonBody(value: Json)
    | Detail(detail: string)

  /** The status sent, the body, the state the request left behind, and the
      tasks still to run. */
  datatype Response = Response(status: nat, body: Body, st: St, tasks: seq<Task>)

  /** An exception nothing catches: FastAPI answers with a bare 500. */
  function Unhandled(st: St): Response
  {
    Response(500, Detail("Internal Server Error"), st, [])
  }

  /** `except HTTPException: raise` followed by `except Exception as e: raise
      HTTPException(500, prefix + str(e))`. */
  function Failure(e: Exc, prefix: string, st: St): (r: Response)
    ensures r.tasks == [] && r.st == st && r.body.Detail?
    ensures e.HttpException? ==> r.status == e.status && r.body.detail == e.detail
    ensures e.Exc? ==> r.status == 500 && r.body.detail == prefix + e.msg
  {
    if e.HttpException? then Response(e.status, Detail(e.detail), st, [])
    else Response(500, Detail(prefix + Text(e)), st, [])
  }

  /** An `HTTPException` raised by the endpoint itself. */
  function Reject(status: nat, detail: string, st: St): Response
  {
    Response(status, Detail(detail), st, [])
  }

  /** The file-name check every PDF endpoint starts with: `.pdf`, any case. */
  predicate IsPdfName(filename: string)
  {
    EndsWithNoCase(filename, ".pdf")
  }

  function NotAPdf(filename: string): string
  {
    "File " + filename + " is not a PDF."
  }

  // ---------------------------------------------------------------- background tasks

  function RunTask(ctx: Ctx, fs: FS, t: Task): FS
  {
    match t
    case CleanFile(p) => CleanupTempFile(ctx, fs, p)
    case CleanFiles(p) => CleanupTempFiles(ctx, fs, p)
    case RmTreeQuiet(p) => (match RmTree(fs, p) case Ok(fs') => fs' case Err(_) => fs)
    case UnlinkQuiet(p) => (match Remove(fs, p) case Ok(fs') => fs' case Err(_) => fs)
  }

  /** The tasks run one after the other, in the order they were queued. */
  function RunTasks(ctx: Ctx, fs: FS, ts: seq<Task>): FS
  {
    if |ts| == 0 then fs else RunTasks(ctx, RunTask(ctx, fs, ts[0]), ts[1..])
  }

  /** `a` is `b` with some entries removed. */
  predicate Sub(a: FS, b: FS)
  {
    forall q :: q in a ==> q in b && a[q] == b[q]
  }

  /** Removing entries never makes a walk end somewhere new. */
  lemma {:induction false} WalkInSub(a: FS, b: FS, p: RawPath)
    requires Sub(a, b)
    ensures Walk(a, p).Some? ==> Walk(a, p) == Walk(b, p)
  {
    if |p| > 0 {
      WalkInSub(a, b, Parent(p));
    }
  }

  /** What exists, or is a file, after removals existed, or was a file, before. */
  lemma ExistsInSub(a: FS, b: FS, p: RawPath)
    requires Sub(a, b)
    ensures Exists(a, p) ==> Exists(b, p)
    ensures IsFile(a, p) ==> IsFile(b, p)
    ensures Walk(a, p).Some? ==> Walk(a, p) == Walk(b, p)
  {
    WalkInSub(a, b, p);
  }

  /** A normalised path leads to itself or nowhere. */
  lemma {:induction false} WalkOfPath(fs: FS, p: Path)
    ensures Walk(fs, p).Some? ==> Walk(fs, p).value == p
  {
    if |p| > 0 {
      WalkOfPath(fs, Parent(p));
      assert Parent(p) + [NameOf(p)] == p;
    }
  }

  /** Each task only removes entries. */
  lemma TaskShrinks(ctx: Ctx, fs: FS, t: Task)
    ensures Sub(RunTask(ctx, fs, t), fs)
  {
  }

  /** A cleanup task removes what it targets, unless the target leads to the
      root; `rmtree(ignore_errors=True)` leaves a file alone. */
  lemma TaskRemovesTarget(ctx: Ctx, fs: FS, t: Task)
    requires Walk(fs, t.path) != Some([])
    requires t.RmTreeQuiet? ==> !IsFile(fs, t.path)
    requires t.UnlinkQuiet? ==> !IsDir(fs, t.path)
    ensures !Exists(RunTask(ctx, fs, t), t.path)
  {
    var p := t.path;
    var r := RunTask(ctx, fs, t);
    ExistsInSub(r, fs, p);
  }

  /** Running the queued tasks removes every target that did not lead to the
      root (for `rmtree`, every target that was not a file), and nothing is
      ever added. */
  lemma {:induction false} TasksRemoveTargets(ctx: Ctx, fs: FS, ts: seq<Task>)
    requires forall i :: 0 <= i < |ts| ==> Walk(fs, ts[i].path) != Some([])
    requires forall i :: 0 <= i < |ts| ==> ts[i].RmTreeQuiet? ==> !IsFile(fs, ts[i].path)
    requires forall i :: 0 <= i < |ts| ==> ts[i].UnlinkQuiet? ==> !IsDir(fs, ts[i].path)
    ensures Sub(RunTasks(ctx, fs, ts), fs)
    ensures forall i :: 0 <= i < |ts| ==> !Exists(RunTasks(ctx, fs, ts), ts[i].path)
  {
    if |ts| > 0 {
      var fs1 := RunTask(ctx, fs, ts[0]);
      TaskShrinks(ctx, fs, ts[0]);
      TaskRemovesTarget(ctx, fs, ts[0]);
      forall i | 0 <= i < |ts| - 1
        ensures Walk(fs1, ts[1..][i].path) != Some([])
        ensures ts[1..][i].RmTreeQuiet? ==> !IsFile(fs1, ts[1..][i].path)
        ensures ts[1..][i].UnlinkQuiet? ==> !IsDir(fs1, ts[1..][i].path)
      {
        assert ts[1..][i] == ts[i + 1];
        ExistsInSub(fs1, fs, ts[i + 1].path);
      }
      TasksRemoveTargets(ctx, fs1, ts[1..]);
      var r := RunTasks(ctx, fs, ts);
      SubTrans(r, fs1, fs);
      forall i | 0 <= i < |ts|
        ensures !Exists(r, ts[i].path)
      {
        if i == 0 {
          ExistsInSub(r, fs1, ts[0].path);
        } else {
          assert ts[1..][i - 1] == ts[i];
        }
      }
    }
  }

  lemma SubTrans(a: FS, b: FS, c: FS)
    requires Sub(a, b) && Sub(b, c)
    ensures Sub(a, c)
  {
  }

  /** Running two queues is running their concatenation. */
  lemma {:induction false} RunTasksAppend(ctx: Ctx, fs: FS, a: seq<Task>, b: seq<Task>)
    ensures RunTasks(ctx, fs, a + b) == RunTasks(ctx, RunTasks(ctx, fs, a), b)
  {
    if |a| > 0 {
      assert (a + b)[0] == a[0];
      assert (a + b)[1..] == a[1..] + b;
      RunTasksAppend(ctx, RunTask(ctx, fs, a[0]), a[1..], b);
    } else {
      assert a + b == b;
    }
  }

  /** Background tasks only ever remove entries. */
  lemma {:induction false} TasksShrink(ctx: Ctx, fs: FS, ts: seq<Task>)
    ensures Sub(RunTasks(ctx, fs, ts), fs)
  {
    if |ts| > 0 {
      var fs1 := RunTask(ctx, fs, ts[0]);
      TaskShrinks(ctx, fs, ts[0]);
      TasksShrink(ctx, fs1, ts[1..]);
      SubTrans(RunTasks(ctx, fs, ts), fs1, fs);
    }
  }

  /** `background_tasks.add_task(cleanup_temp_file, p)` for each path, in order
      (also the `for path in input_paths: cleanup_temp_file(path)` of a
      `finally`). */
  function CleanTasks(ps: seq<RawPath>): (ts: seq<Task>)
    ensures |ts| == |ps| && forall i :: 0 <= i < |ps| ==> ts[i] == CleanFile(ps[i])
  {
    seq(|ps|, i requires 0 <= i < |ps| => CleanFile(ps[i]))
  }

  /** Cleaning up every staged path removes each of them and adds nothing. */
  lemma CleanupsRemoveStaged(ctx: Ctx, fs: FS, ps: seq<Path>)
    requires forall i :: 0 <= i < |ps| ==> |ps[i]| > 0
    ensures Sub(RunTasks(ctx, fs, CleanTasks(ps)), fs)
    ensures forall i :: 0 <= i < |ps| ==> !Exists(RunTasks(ctx, fs, CleanTasks(ps)), ps[i])
  {
    var ts := CleanTasks(ps);
    forall i | 0 <= i < |ts|
      ensures Walk(fs, ts[i].path) != Some([])
    {
      WalkOfPath(fs, ps[i]);
    }
    TasksRemoveTargets(ctx, fs, ts);
  }

  /** The `finally` cleanup of a staged input removes it, whatever happened
      in between. */
  lemma CleanupRemovesStaged(ctx: Ctx, fs: FS, p: Path)
    requires |p| > 0
    ensures !Exists(CleanupTempFile(ctx, fs, p), p)
    ensures Sub(CleanupTempFile(ctx, fs, p), fs)
  {
    WalkOfPath(fs, p);
    TaskRemovesTarget(ctx, fs, CleanFile(p));
  }

  // ---------------------------------------------------------------- single-file job

  /** Where an endpoint puts its output: `TEMP_DIR / f"{stem}_{uuid4()}{suffix}"`
      directly under the root, or `get_temp_file_path(output_filename)`. */
  datatype OutputAt = UnderRoot | FreshDir

  /** The name `{stem}_{uuid}{suffix}` made from the client's output name. */
  function UniqueName(id: Name, filename: string): Name
  {
    var n := NameOf(Components(filename));
    StemSuffix(n);
    assert '/' !in Stem(n) + "_" + id + Suffix(n) by {
      assert Stem(n) + Suffix(n) == n;
      assert forall k :: 0 <= k < |Stem(n)| ==> Stem(n)[k] == n[k];
      assert forall k :: 0 <= k < |Suffix(n)| ==> Suffix(n)[k] == n[|Stem(n)| + k];
    }
    var u := Stem(n) + "_" + id + Suffix(n);
    assert u[|Stem(n)|] == '_';
    u
  }

  function AllocateOutput(ctx: Ctx, st: St, at: OutputAt, filename: string): Out<RawPath>
  {
    match at
    case UnderRoot => Out(St(st.fs, st.used + 1), Ok(Join(ctx.root, UniqueName(ctx.uuid(st.used), filename))))
    case FreshDir => GetTempFilePath(ctx, st, filename, false)
  }

  /** A `{stem}_{uuid}{suffix}` output lies directly under the root. */
  lemma UnderRootIsChild(ctx: Ctx, st: St, filename: string)
    ensures var o := AllocateOutput(ctx, st, UnderRoot, filename);
            && o.st.fs == st.fs
            && o.r == Ok(ctx.root + [UniqueName(ctx.uuid(st.used), filename)])
  {
    JoinOrdinaryWithin(ctx.root, UniqueName(ctx.uuid(st.used), filename));
  }

  /** What the endpoint does inside `try`: from the state, the staged input and
      the output path to the path it answers with. */
  type Transform = (St, Path, RawPath) -> Out<RawPath>

  /** Stage the upload, choose the output path (both before `try`, so their
      exceptions are unhandled and skip the cleanup), run the transform, answer
      with the file or the mapped error, and in `finally` clean up the input.
      On success the input and the output are also queued for cleanup. */
  function SingleFileJob(ctx: Ctx, st: St, up: Upload, at: OutputAt, outputFilename: string,
                         body: Transform, prefix: string, mediaType: string): Response
  {
    var s := SaveTempFile(ctx, st, up);
    match s.r
    case Err(_) => Unhandled(s.st)
    case Ok(input) =>
      var o := AllocateOutput(ctx, s.st, at, outputFilename);
      match o.r
      case Err(_) => Unhandled(o.st)
      case Ok(out) =>
        var t := body(o.st, input, out);
        var st' := St(CleanupTempFile(ctx, t.st.fs, input), t.st.used);
        match t.r
        case Err(e) => Failure(e, prefix, st')
        case Ok(res) => Response(200, FileBody(res, outputFilename, mediaType), st', [CleanFile(input), CleanFile(res)])
  }

  /** Once the `try` block is entered the staged input is gone when the
      response is sent, on every exit path; the transform's own result decides
      the status: 200 with the output and both paths queued for cleanup, or the
      mapped error with nothing queued. */
  lemma SingleFileJobSpec(ctx: Ctx, st: St, up: Upload, at: OutputAt, outputFilename: string,
                          body: Transform, prefix: string, mediaType: string)
    requires SaveTempFile(ctx, st, up).r.Ok?
    requires AllocateOutput(ctx, SaveTempFile(ctx, st, up).st, at, outputFilename).r.Ok?
    ensures var s := SaveTempFile(ctx, st, up);
            var o := AllocateOutput(ctx, s.st, at, outputFilename);
            var t := body(o.st, s.r.value, o.r.value);
            var r := SingleFileJob(ctx, st, up, at, outputFilename, body, prefix, mediaType);
            && !Exists(r.st.fs, s.r.value)
            && Sub(r.st.fs, t.st.fs)
            && (r.status == 200 <==> t.r.Ok? || (t.r.error.HttpException? && t.r.error.status == 200))
            && (t.r.Ok? ==> r.body == FileBody(t.r.value, outputFilename, mediaType)
                            && r.tasks == [CleanFile(s.r.value), CleanFile(t.r.value)])
            && (t.r.Err? ==> r == Failure(t.r.error, prefix, r.st))
  {
    var s := SaveTempFile(ctx, st, up);
    var o := AllocateOutput(ctx, s.st, at, outputFilename);
    var t := body(o.st, s.r.value, o.r.value);
    CleanupRemovesStaged(ctx, t.st.fs, s.r.value);
  }

  /** After a successful single-file job has run its queued tasks, neither the
      input nor the output exists any more: the repeated cleanup of the input
      is harmless and the output is removed. */
  lemma SingleFileJobLeavesNothing(ctx: Ctx, st: St, up: Upload, at: OutputAt, outputFilename: string,
                                   body: Transform, prefix: string, mediaType: string)
    requires SaveTempFile(ctx, st, up).r.Ok?
    requires var r := SingleFileJob(ctx, st, up, at, outputFilename, body, prefix, mediaType);
             r.status == 200 && r.body.FileBody? && Walk(r.st.fs, r.body.path) != Some([])
    ensures var r := SingleFileJob(ctx, st, up, at, outputFilename, body, prefix, mediaType);
            && |r.tasks| == 2
            && !Exists(RunTasks(ctx, r.st.fs, r.tasks), SaveTempFile(ctx, st, up).r.value)
            && !Exists(RunTasks(ctx, r.st.fs, r.tasks), r.body.path)
  {
    var s := SaveTempFile(ctx, st, up);
    var o := AllocateOutput(ctx, s.st, at, outputFilename);
    assert o.r.Ok?;
    SingleFileJobSpec(ctx, st, up, at, outputFilename, body, prefix, mediaType);
    var r := SingleFileJob(ctx, st, up, at, outputFilename, body, prefix, mediaType);
    TwoCleanups(ctx, r.st.fs, s.r.value, r.body.path);
  }

  /** Cleaning up a staged input and then an output removes both. */
  lemma TwoCleanups(ctx: Ctx, fs: FS, a: Path, b: RawPath)
    requires |a| > 0 && Walk(fs, b) != Some([])
    ensures !Exists(RunTasks(ctx, fs, [CleanFile(a), CleanFile(b)]), a)
    ensures !Exists(RunTasks(ctx, fs, [CleanFile(a), CleanFile(b)]), b)
  {
    WalkOfPath(fs, a);
    TasksRemoveTargets(ctx, fs, [CleanFile(a), CleanFile(b)]);
  }

  /** The transform of an endpoint that calls a file-system-only service. */
  function Lift(st: St, s: Step<RawPath>): Out<RawPath>
  {
    Out(St(s.fs, st.used), s.r)
  }
}
