/** The temp-file allocator and its cleanup (`app/services/utils.py`): every
    staged upload or output gets a fresh `root/<uuid>/` directory; cleanup
    removes a file and its emptied parent, or a whole directory, and swallows
    operating-system errors. */
module TempStorage {
  import opened Wrappers
  import opened Errors
  import opened PyPath
  import opened FileSystem

  /** The temp root (`TEMP_FILES_DIR`, `temp_files` by default) and the uuid4
      oracle: the i-th call of `uuid.uuid4()` yields `uuid(i)`. */
  datatype Ctx = Ctx(root: Path, uuid: nat -> Name)

  /** The file system and how many uuids have been drawn so far. */
  datatype St = St(fs: FS, used: nat)

  /** A result together with the state reached: an exception does not undo
      what happened before it was raised. */
  datatype Out<+T> = Out(st: St, r: Result<T, Exc>)

  /** The root exists as a directory (`utils.py` creates it at import time). */
  predicate Ready(ctx: Ctx, st: St)
  {
    Valid(st.fs) && IsDirAt(st.fs, ctx.root)
  }

  /** The next `n` uuids are pairwise distinct and name nothing under the root yet. */
  predicate Fresh(ctx: Ctx, st: St, n: nat)
  {
    && (forall i :: st.used <= i < st.used + n ==> ctx.root + [ctx.uuid(i)] !in st.fs)
    && (forall i, j :: st.used <= i < j < st.used + n ==> ctx.uuid(i) != ctx.uuid(j))
  }

  /** A new directory `root/<uuid>` made with `mkdir(parents=True, exist_ok=True)`.
      It also stands for split's `tempfile.mkdtemp(dir=TEMP_DIR)` and the
      conversion endpoints' `processing_dir.mkdir(exist_ok=True)`, which
      agree with it on an existing root and an unused name. */
  function NewDir(ctx: Ctx, st: St): Out<Path>
  {
    var d: Path := ctx.root + [ctx.uuid(st.used)];
    match Mkdirs(st.fs, d)
    case Ok(fs') => Out(St(fs', st.used + 1), Ok(d))
    case Err(e) => Out(St(st.fs, st.used + 1), Err(e))
  }

  /** A fresh uuid gives a new, empty directory directly under the root and
      changes nothing else. */
  lemma NewDirFresh(ctx: Ctx, st: St)
    requires Ready(ctx, st) && Fresh(ctx, st, 1)
    ensures NewDir(ctx, st).r == Ok(ctx.root + [ctx.uuid(st.used)])
    ensures NewDir(ctx, st).st == St(st.fs[ctx.root + [ctx.uuid(st.used)] := Dir], st.used + 1)
    ensures Ready(ctx, NewDir(ctx, st).st)
    ensures Children(NewDir(ctx, st).st.fs, ctx.root + [ctx.uuid(st.used)]) == {}
  {
    var d := ctx.root + [ctx.uuid(st.used)];
    assert Parent(d) == ctx.root;
    assert CreateChain(st.fs, d) == Some(st.fs[d := Dir]);
    AddLeafDir(st.fs, d);
    var fs' := st.fs[d := Dir];
    forall q | q in fs'
      ensures !(|q| == |d| + 1 && d <= q)
    {
      PrefixOfEntryPresent(st.fs, q, d);
    }
  }

  /** Drawing the next uuids and creating a directory leaves the later ones fresh. */
  lemma FreshAfterNewDir(ctx: Ctx, st: St, n: nat)
    requires Ready(ctx, st) && Fresh(ctx, st, n + 1)
    ensures Fresh(ctx, NewDir(ctx, st).st, n)
  {
    NewDirFresh(ctx, st);
  }

  /** `get_temp_file_path(filename, directory_only)`: always a new directory
      under the root; the result is that directory, `dir / filename` with the
      client's name used verbatim (and not created), or `dir/<uuid>`. An empty
      filename is falsy, like `None`. */
  function GetTempFilePath(ctx: Ctx, st: St, filename: string, directoryOnly: bool): Out<RawPath>
  {
    var o := NewDir(ctx, st);
    match o.r
    case Err(e) => Out(o.st, Err(e))
    case Ok(d) =>
      if directoryOnly then Out(o.st, Ok(d))
      else if filename != "" then Out(o.st, Ok(Join(d, filename)))
      else Out(St(o.st.fs, o.st.used + 1), Ok(d + [ctx.uuid(o.st.used)]))
  }

  /** On fresh uuids `get_temp_file_path` creates exactly one new directory
      directly under the root, and returns it, the client's name joined to it,
      or a second fresh name inside it; nothing else in the file system changes. */
  lemma GetTempFilePathSpec(ctx: Ctx, st: St, filename: string, directoryOnly: bool)
    requires Ready(ctx, st) && Fresh(ctx, st, 2)
    ensures var o := GetTempFilePath(ctx, st, filename, directoryOnly);
            var d := ctx.root + [ctx.uuid(st.used)];
            && o.st.fs == st.fs[d := Dir]
            && Ready(ctx, o.st)
            && o.r.Ok?
            && (directoryOnly ==> o.r.value == d && o.st.used == st.used + 1)
            && (!directoryOnly && filename != "" ==> o.r.value == Join(d, filename) && o.st.used == st.used + 1)
            && (!directoryOnly && filename == "" ==>
                  o.r.value == d + [ctx.uuid(st.used + 1)] && o.st.used == st.used + 2
                  && o.r.value !in o.st.fs)
  {
    NewDirFresh(ctx, st);
    var d := ctx.root + [ctx.uuid(st.used)];
    var fs' := st.fs[d := Dir];
    if !directoryOnly && filename == "" {
      var f := d + [ctx.uuid(st.used + 1)];
      PrefixOfEntryPresent(st.fs, f, d);
      assert f != d;
    }
  }

  /** A client upload: its file name and its bytes. */
  datatype Upload = Upload(filename: string, content: Bytes)

  /** `await upload_file.read(1024 * 1024)`. */
  const ChunkSize: nat := 1024 * 1024

  /** The successive non-empty reads of an upload: chunks of at most one MiB. */
  function Chunks(content: Bytes): (cs: seq<Bytes>)
    ensures forall i :: 0 <= i < |cs| ==> 0 < |cs[i]| <= ChunkSize
    decreases |content|
  {
    if |content| == 0 then []
    else if |content| <= ChunkSize then [content]
    else [content[..ChunkSize]] + Chunks(content[ChunkSize..])
  }

  function Concat(cs: seq<Bytes>): Bytes
  {
    if |cs| == 0 then [] else cs[0] + Concat(cs[1..])
  }

  /** Writing the chunks in order until the first empty read reproduces the
      upload exactly. */
  lemma {:induction false} ChunksConcat(content: Bytes)
    ensures Concat(Chunks(content)) == content
    decreases |content|
  {
    if |content| > ChunkSize {
      ChunksConcat(content[ChunkSize..]);
      assert content[..ChunkSize] + content[ChunkSize..] == content;
    }
  }

  /** The upload is written in `ceil(n / 1 MiB)` chunks. */
  lemma {:induction false} ChunksCount(content: Bytes)
    ensures |Chunks(content)| == (|content| + ChunkSize - 1) / ChunkSize
    decreases |content|
  {
    var n := |content|;
    if n > ChunkSize {
      ChunksCount(content[ChunkSize..]);
      OneChunkMore(n - 1);
    } else if n > 0 {
      assert ChunkSize <= n + ChunkSize - 1 < 2 * ChunkSize;
    }
  }

  /** One more MiB is one more chunk. */
  lemma OneChunkMore(x: nat)
    requires x >= ChunkSize
    ensures x / ChunkSize == (x - ChunkSize) / ChunkSize + 1
  {
  }

  /** The staged file name: a second uuid followed by the suffix of the final
      component of the client's name. */
  function StagedName(id: Name, filename: string): Name
  {
    var last := NameOf(Components(filename));
    NameWithSuffixIsOrdinary(id, last);
    id + Suffix(last)
  }

  /** `save_temp_file`: `root/<uuid>/<uuid><suffix>` holding the upload's bytes,
      written chunk by chunk. */
  function SaveTempFile(ctx: Ctx, st: St, up: Upload): (o: Out<Path>)
    ensures o.r.Ok? ==> |o.r.value| == |ctx.root| + 2 && Within(o.r.value, ctx.root)
    ensures o.r.Err? ==> IsOSError(o.r.error)
  {
    var o := NewDir(ctx, st);
    match o.r
    case Err(e) => MkdirsRaisesOSError(st.fs, ctx.root + [ctx.uuid(st.used)]); Out(o.st, Err(e))
    case Ok(d) =>
      var p: Path := d + [StagedName(ctx.uuid(o.st.used), up.filename)];
      var st1 := St(o.st.fs, o.st.used + 1);
      match WriteFile(st1.fs, p, Concat(Chunks(up.content)))
      case Ok(fs') => Out(St(fs', st1.used), Ok(p))
      case Err(e) => Out(st1, Err(e))
  }

  /** On fresh uuids the upload lands at `root/<id1>/<id2><suffix>`, a normal
      path two levels below the root that no other part of the client's name
      reaches, holding exactly the uploaded bytes; the only other change is the
      new directory. */
  lemma SaveTempFileSpec(ctx: Ctx, st: St, up: Upload)
    requires Ready(ctx, st) && Fresh(ctx, st, 2)
    ensures var o := SaveTempFile(ctx, st, up);
            var d := ctx.root + [ctx.uuid(st.used)];
            var p := d + [ctx.uuid(st.used + 1) + Suffix(NameOf(Components(up.filename)))];
            && o.r == Ok(p)
            && o.st.fs == st.fs[d := Dir][p := File(up.content)]
            && o.st.used == st.used + 2
            && Ready(ctx, o.st)
            && Within(p, ctx.root) && |p| == |ctx.root| + 2
            && d !in st.fs && p !in st.fs
  {
    NewDirFresh(ctx, st);
    ChunksConcat(up.content);
    var d := ctx.root + [ctx.uuid(st.used)];
    var fs1 := st.fs[d := Dir];
    var p: Path := d + [StagedName(ctx.uuid(st.used + 1), up.filename)];
    assert Parent(p) == d;
    WalkOfNormal(fs1, d);
    assert Locate(fs1, p) == Some(p);
    PrefixOfEntryPresent(st.fs, p, d);
    assert p != d;
    AddLeaf(fs1, p, File(up.content));
  }

  /** Staging one upload uses two uuids and leaves the later ones fresh. */
  lemma FreshAfterSave(ctx: Ctx, st: St, up: Upload, n: nat)
    requires Ready(ctx, st) && Fresh(ctx, st, n + 2)
    ensures Fresh(ctx, SaveTempFile(ctx, st, up).st, n)
  {
    SaveTempFileSpec(ctx, st, up);
    var o := SaveTempFile(ctx, st, up);
    forall i | o.st.used <= i < o.st.used + n
      ensures ctx.root + [ctx.uuid(i)] !in o.st.fs
    {
      assert ctx.uuid(i) != ctx.uuid(st.used);
      assert (ctx.root + [ctx.uuid(i)])[|ctx.root|] == ctx.uuid(i);
    }
  }

  /** The staged path depends on the client's name only through its suffix. */
  lemma StagedPathIgnoresName(ctx: Ctx, st: St, a: Upload, b: Upload)
    requires Suffix(NameOf(Components(a.filename))) == Suffix(NameOf(Components(b.filename)))
    ensures SaveTempFile(ctx, st, a).r.Ok? && SaveTempFile(ctx, st, b).r.Ok? ==>
              SaveTempFile(ctx, st, a).r == SaveTempFile(ctx, st, b).r
  {
  }

  /** `cleanup_temp_file(p)`: a file is removed, then its (lexical) parent is
      removed when it is not the root and is now empty; a directory is removed
      with its subtree; anything else is left alone. `OSError`s are swallowed. */
  function CleanupTempFile(ctx: Ctx, fs: FS, p: RawPath): FS
  {
    if IsFile(fs, p) then
      match Remove(fs, p)
      case Err(_) => fs
      case Ok(fs1) =>
        var parent := Parent(p);
        if parent == ctx.root then fs1
        else
          match IsEmptyDir(fs1, parent)
          case Err(_) => fs1
          case Ok(empty) =>
            if !empty then fs1
            else match RmTree(fs1, parent)
              case Ok(fs2) => fs2
              case Err(_) => fs1
    else if IsDir(fs, p) then
      match RmTree(fs, p)
      case Ok(fs1) => fs1
      case Err(_) => fs
    else fs
  }

  /** `cleanup_temp_files(p)`: the same steps behind an `exists()` check. */
  function CleanupTempFiles(ctx: Ctx, fs: FS, p: RawPath): FS
  {
    if Exists(fs, p) then
      if IsFile(fs, p) then
        match Remove(fs, p)
        case Err(_) => fs
        case Ok(fs1) =>
          var parent := Parent(p);
          if parent != ctx.root then
            match IsEmptyDir(fs1, parent)
            case Ok(true) =>
              (match RmTree(fs1, parent)
               case Ok(fs2) => fs2
               case Err(_) => fs1)
            case _ => fs1
          else fs1
      else if IsDir(fs, p) then
        match RmTree(fs, p)
        case Ok(fs1) => fs1
        case Err(_) => fs
      else fs
    else fs
  }

  /** `cleanup_temp_files()` with its default argument: the whole root. */
  function CleanupAll(ctx: Ctx, fs: FS): FS
  {
    CleanupTempFiles(ctx, fs, ctx.root)
  }

  /** The two cleanup helpers agree on every path. */
  lemma CleanupVariantsAgree(ctx: Ctx, fs: FS, p: RawPath)
    requires Valid(fs)
    ensures CleanupTempFiles(ctx, fs, p) == CleanupTempFile(ctx, fs, p)
  {
    WalkLandsOnEntry(fs, p);
  }

  /** The default cleanup removes the root and everything in it. */
  lemma CleanupAllRemovesRoot(ctx: Ctx, fs: FS)
    requires Ready(ctx, St(fs, 0)) && ctx.root != []
    ensures CleanupAll(ctx, fs) == RemoveTree(fs, ctx.root)
    ensures forall q :: q in CleanupAll(ctx, fs) ==> !Within(q, ctx.root)
  {
    WalkOfNormal(fs, ctx.root);
  }

  /** What cleanup removes around a regular file: the file, and its parent
      exactly when that parent is not the root and held nothing else. */
  lemma CleanupFileSpec(ctx: Ctx, fs: FS, p: Path)
    requires Valid(fs) && IsFileAt(fs, p)
    ensures var fs1 := fs - {p};
            CleanupTempFile(ctx, fs, p) ==
              if Parent(p) != ctx.root && Children(fs1, Parent(p)) == {} && Parent(p) != []
              then fs1 - {Parent(p)}
              else if Parent(p) != ctx.root && Children(fs1, Parent(p)) == {}
              then RemoveTree(fs1, [])
              else fs1
    ensures Valid(CleanupTempFile(ctx, fs, p))
  {
    WalkOfNormal(fs, p);
    var fs1 := fs - {p};
    RemoveValid(fs, p);
    var par := Parent(p);
    assert par in fs1 by {
      assert |p| > 0;
    }
    WalkOfNormal(fs1, par);
    if par != ctx.root && Children(fs1, par) == {} {
      RemoveTreeValid(fs1, par);
      if par != [] {
        forall q | q in fs1 && par <= q
          ensures q == par
        {
          NoChildrenNoDescendants(fs1, par, q);
        }
        assert RemoveTree(fs1, par) == fs1 - {par};
      }
    }
  }

  /** On a directory, cleanup removes the directory and everything under it;
      on a path that does not exist it changes nothing. */
  lemma CleanupDirAndAbsent(ctx: Ctx, fs: FS, p: Path)
    requires Valid(fs)
    ensures IsDirAt(fs, p) ==> CleanupTempFile(ctx, fs, p) == RemoveTree(fs, p)
    ensures p !in fs ==> CleanupTempFile(ctx, fs, p) == fs
    ensures Valid(CleanupTempFile(ctx, fs, p))
  {
    WalkOfNormal(fs, p);
    if IsDirAt(fs, p) {
      RemoveTreeValid(fs, p);
    } else if IsFileAt(fs, p) {
      CleanupFileSpec(ctx, fs, p);
    }
  }

  /** Cleaning up a single staged file never removes the root, nor anything
      outside the file and its parent. */
  lemma CleanupFileKeepsRoot(ctx: Ctx, fs: FS, p: Path)
    requires Ready(ctx, St(fs, 0)) && IsFileAt(fs, p)
    ensures IsDirAt(CleanupTempFile(ctx, fs, p), ctx.root)
    ensures forall q :: q in fs && q != p && q != Parent(p) ==> q in CleanupTempFile(ctx, fs, p)
  {
    CleanupFileSpec(ctx, fs, p);
    var fs1 := fs - {p};
    var par := Parent(p);
    if par != ctx.root && Children(fs1, par) == {} {
      if par == [] {
        assert ctx.root in fs1 && |ctx.root| > 0;
        ChildOnTheWay(fs1, [], ctx.root);
        assert false;
      }
    }
  }

  /** Cleanup is idempotent: the background task that repeats the `finally`
      cleanup of the same path changes nothing more. */
  lemma CleanupIdempotent(ctx: Ctx, fs: FS, p: Path)
    requires Valid(fs)
    ensures CleanupTempFile(ctx, CleanupTempFile(ctx, fs, p), p) == CleanupTempFile(ctx, fs, p)
  {
    var fs' := CleanupTempFile(ctx, fs, p);
    CleanupDirAndAbsent(ctx, fs, p);
    if IsFileAt(fs, p) {
      CleanupFileSpec(ctx, fs, p);
      assert p !in fs';
    } else if IsDirAt(fs, p) && p == [] {
      RemoveTreeValid(fs, p);
      assert RemoveTree(fs', []) == fs';
    }
    CleanupDirAndAbsent(ctx, fs', p);
  }
}
