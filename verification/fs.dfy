/** An abstract POSIX file system: a map from normalised absolute paths to
    files (their bytes) or directories, and the operating-system calls the
    service makes on it (`open(..., 'wb')`, `os.remove`, `shutil.rmtree`,
    `Path.mkdir`, `Path.iterdir`, `Path.is_file`, ...). Lookups of raw paths
    walk component by component, as the kernel does. */
module FileSystem {
  import opened Wrappers
  import opened PyPath
  import opened Errors

  newtype Byte = b: int | 0 <= b < 256
  type Bytes = seq<Byte>

  datatype Node = File(data: Bytes) | Dir

  type FS = map<Path, Node>

  /** The root is a directory and every other entry sits in a directory. */
  predicate Valid(fs: FS)
  {
    && [] in fs && fs[[]] == Dir
    && forall p {:trigger Parent(p)} :: p in fs && |p| > 0 ==> Parent(p) in fs && fs[Parent(p)] == Dir
  }

  /** The state of the file system after an operation, and what it produced:
      an exception does not undo what happened before it was raised. */
  datatype Step<+T> = Step(fs: FS, r: Result<T, Exc>)

  predicate IsDirAt(fs: FS, q: Path)
  {
    q in fs && fs[q] == Dir
  }

  predicate IsFileAt(fs: FS, q: Path)
  {
    q in fs && fs[q].File?
  }

  /** The entry the kernel reaches by following `p` from the root: every step
      needs a directory; `..` moves up (and stays at the root); `.` and empty
      components stay put. */
  function Walk(fs: FS, p: RawPath): Option<Path>
    decreases |p|
  {
    if |p| == 0 then Some([])
    else
      match Walk(fs, Parent(p))
      case None => None
      case Some(d) =>
        var c := NameOf(p);
        if !IsDirAt(fs, d) then None
        else if c == ".." then Some(Parent(d))
        else if c == "" || c == "." then Some(d)
        else if IsOrdinary(c) && d + [c] in fs then Some(d + [c])
        else None
  }

  /** `Path.is_file()`. */
  predicate IsFile(fs: FS, p: RawPath)
  {
    Walk(fs, p).Some? && IsFileAt(fs, Walk(fs, p).value)
  }

  /** `Path.is_dir()`. */
  predicate IsDir(fs: FS, p: RawPath)
  {
    Walk(fs, p).Some? && IsDirAt(fs, Walk(fs, p).value)
  }

  /** `Path.exists()`. */
  predicate Exists(fs: FS, p: RawPath)
  {
    Walk(fs, p).Some? && Walk(fs, p).value in fs
  }

  /** In a well-formed file system a walk ends on an existing entry. */
  lemma {:induction false} WalkLandsOnEntry(fs: FS, p: RawPath)
    requires Valid(fs)
    ensures Walk(fs, p).Some? ==> Walk(fs, p).value in fs
    ensures Exists(fs, p) <==> Walk(fs, p).Some?
  {
    if |p| > 0 {
      WalkLandsOnEntry(fs, Parent(p));
    }
  }

  /** A normalised path is found exactly when it is an entry. */
  lemma {:induction false} WalkOfNormal(fs: FS, p: Path)
    requires Valid(fs)
    ensures Walk(fs, p) == if p in fs then Some(p) else None
  {
    if |p| > 0 {
      var q := Parent(p);
      var c := NameOf(p);
      assert q + [c] == p;
      assert IsOrdinary(c);
      WalkOfNormal(fs, q);
      if p in fs {
        assert IsDirAt(fs, q);
      }
    }
  }

  /** Whatever a parsed path reaches is its lexical normal form, so `resolve()`
      (lexical) names the same entry the kernel would. */
  lemma {:induction false} WalkIsNormalize(fs: FS, p: RawPath)
    requires forall i :: 0 <= i < |p| ==> IsComponent(p[i])
    ensures Walk(fs, p).Some? ==> Walk(fs, p).value == Normalize(p)
  {
    if |p| > 0 {
      WalkIsNormalize(fs, Parent(p));
    }
  }

  /** Where `open(p, 'wb')` creates or truncates: the walked parent directory
      followed by the last component. */
  function Locate(fs: FS, p: RawPath): Option<Path>
  {
    if |p| == 0 then None
    else
      match Walk(fs, Parent(p))
      case None => None
      case Some(d) =>
        var c := NameOf(p);
        if IsDirAt(fs, d) && IsOrdinary(c) then Some(d + [c]) else None
  }

  /** The `errno` values the service's file-system calls can meet. */
  datatype Errno = ENOENT | EEXIST | ENOTDIR | EISDIR

  /** The `OSError` subclass Python raises for an `errno`, with its `str()`:
      `[Errno n] <strerror>: <the path's repr>`. */
  function OSErr(e: Errno, shown: string): (x: Exc)
    ensures IsOSError(x)
  {
    match e
    case ENOENT => Exc(FileNotFoundError, "[Errno 2] No such file or directory: " + shown)
    case EEXIST => Exc(FileExistsError, "[Errno 17] File exists: " + shown)
    case ENOTDIR => Exc(NotADirectoryError, "[Errno 20] Not a directory: " + shown)
    case EISDIR => Exc(IsADirectoryError, "[Errno 21] Is a directory: " + shown)
  }

  /** The `repr` of the path's text, as an `OSError` names it. */
  function Quoted(p: RawPath): string
  {
    "'" + (if |p| == 0 then "/" else Render(p)) + "'"
  }

  /** Why the kernel's walk of `p` fails: a file met where a directory is
      needed is `ENOTDIR`, a missing entry is `ENOENT`. */
  function WalkFailure(fs: FS, p: RawPath): Errno
    decreases |p|
  {
    if |p| == 0 then ENOENT
    else
      match Walk(fs, Parent(p))
      case None => WalkFailure(fs, Parent(p))
      case Some(d) => if IsFileAt(fs, d) then ENOTDIR else ENOENT
  }

  /** `open(p, 'wb').write(data)`: creates or truncates a file; fails on a
      directory or when the parent is not an existing directory. */
  function WriteFile(fs: FS, p: RawPath, data: Bytes): (r: Result<FS, Exc>)
    ensures r.Ok? <==> Locate(fs, p).Some? && !IsDirAt(fs, Locate(fs, p).value)
    ensures r.Ok? ==> r.value == fs[Locate(fs, p).value := File(data)]
    ensures r.Err? ==> IsOSError(r.error)
  {
    match Locate(fs, p)
    case None =>
      if |p| > 0 && (NameOf(p) == ".." || NameOf(p) == "." || NameOf(p) == "") && IsDir(fs, Parent(p))
      then Err(OSErr(EISDIR, Quoted(p)))
      else Err(OSErr(WalkFailure(fs, p), Quoted(p)))
    case Some(t) =>
      if IsDirAt(fs, t) then Err(OSErr(EISDIR, Quoted(p)))
      else Ok(fs[t := File(data)])
  }

  /** A file where a directory is needed: writing and reading below it both
      raise `NotADirectoryError` naming the path asked for. */
  lemma FileAsParent(fs: FS, p: RawPath, data: Bytes)
    requires Valid(fs) && |p| > 0 && IsFile(fs, Parent(p))
    ensures WriteFile(fs, p, data) == Err(OSErr(ENOTDIR, Quoted(p)))
    ensures Read(fs, p) == Err(OSErr(ENOTDIR, Quoted(p)))
  {
  }

  /** A missing name inside an existing directory: reading it raises
      `FileNotFoundError` naming the path asked for. */
  lemma MissingInDir(fs: FS, p: RawPath)
    requires Valid(fs) && |p| > 0 && IsDir(fs, Parent(p)) && IsOrdinary(NameOf(p)) && !Exists(fs, p)
    ensures Read(fs, p) == Err(OSErr(ENOENT, Quoted(p)))
    ensures Remove(fs, p) == Err(OSErr(ENOENT, Quoted(p)))
  {
  }

  /** A written file reads back: the path now names a file holding exactly the data. */
  lemma WriteFileReadsBack(fs: FS, p: RawPath, data: Bytes)
    requires Valid(fs)
    requires WriteFile(fs, p, data).Ok?
    ensures Valid(WriteFile(fs, p, data).value)
    ensures Read(WriteFile(fs, p, data).value, Locate(fs, p).value) == Ok(data)
  {
    var t := Locate(fs, p).value;
    var fs' := WriteFile(fs, p, data).value;
    var d := Walk(fs, Parent(p)).value;
    WalkLandsOnEntry(fs, Parent(p));
    assert Parent(t) == d;
    WalkOfNormal(fs', t);
  }

  /** Reading a file (`open(p, 'rb').read()`). */
  function Read(fs: FS, p: RawPath): (r: Result<Bytes, Exc>)
    ensures r.Ok? <==> IsFile(fs, p)
    ensures r.Ok? ==> fs[Walk(fs, p).value] == File(r.value)
  {
    match Walk(fs, p)
    case None => Err(OSErr(WalkFailure(fs, p), Quoted(p)))
    case Some(q) =>
      if IsFileAt(fs, q) then Ok(fs[q].data) else Err(OSErr(EISDIR, Quoted(p)))
  }

  /** `os.remove(p)`: files only. */
  function Remove(fs: FS, p: RawPath): (r: Result<FS, Exc>)
    ensures r.Ok? <==> IsFile(fs, p)
    ensures r.Ok? ==> r.value == fs - {Walk(fs, p).value}
    ensures r.Err? ==> IsOSError(r.error)
  {
    match Walk(fs, p)
    case None => Err(OSErr(WalkFailure(fs, p), Quoted(p)))
    case Some(q) =>
      if IsFileAt(fs, q) then Ok(fs - {q}) else Err(OSErr(EISDIR, Quoted(p)))
  }

  /** Removing a file keeps the file system well formed. */
  lemma RemoveValid(fs: FS, p: RawPath)
    requires Valid(fs) && Remove(fs, p).Ok?
    ensures Valid(Remove(fs, p).value)
  {
    var q := Walk(fs, p).value;
    var fs' := Remove(fs, p).value;
    forall x | x in fs' && |x| > 0
      ensures Parent(x) in fs' && fs'[Parent(x)] == Dir
    {
      assert Parent(x) != q;
    }
  }

  /** Everything at or below `t`, except that the root itself stays. */
  function RemoveTree(fs: FS, t: Path): (r: FS)
    ensures forall q :: q in r <==> q in fs && (q == [] || !(t <= q))
    ensures forall q :: q in r ==> r[q] == fs[q]
  {
    map q | q in fs && (q == [] || !(t <= q)) :: fs[q]
  }

  lemma RemoveTreeValid(fs: FS, t: Path)
    requires Valid(fs)
    ensures Valid(RemoveTree(fs, t))
  {
    var r := RemoveTree(fs, t);
    forall x | x in r && |x| > 0
      ensures Parent(x) in r && r[Parent(x)] == Dir
    {
      assert Parent(x) <= x;
    }
  }

  /** `shutil.rmtree(p)`: a directory and everything below it. */
  function RmTree(fs: FS, p: RawPath): (r: Result<FS, Exc>)
    ensures r.Ok? <==> IsDir(fs, p)
    ensures r.Ok? ==> r.value == RemoveTree(fs, Walk(fs, p).value)
    ensures r.Err? ==> IsOSError(r.error)
  {
    match Walk(fs, p)
    case None => Err(OSErr(WalkFailure(fs, p), "PosixPath(" + Quoted(p) + ")"))
    case Some(q) =>
      if IsDirAt(fs, q) then Ok(RemoveTree(fs, q)) else Err(OSErr(ENOTDIR, "PosixPath(" + Quoted(p) + ")"))
  }

  /** The entries directly inside `d`. */
  function Children(fs: FS, d: Path): set<Path>
  {
    set q | q in fs && |q| == |d| + 1 && d <= q
  }

  /** `not list(p.iterdir())`. */
  function IsEmptyDir(fs: FS, p: RawPath): (r: Result<bool, Exc>)
    ensures r.Ok? <==> IsDir(fs, p)
    ensures r.Ok? ==> (r.value <==> Children(fs, Walk(fs, p).value) == {})
  {
    match Walk(fs, p)
    case None => Err(OSErr(WalkFailure(fs, p), Quoted(p)))
    case Some(q) =>
      if IsDirAt(fs, q) then Ok(Children(fs, q) == {}) else Err(OSErr(ENOTDIR, Quoted(p)))
  }

  /** An entry with no children is a leaf: nothing lies strictly below it. */
  lemma NoChildrenNoDescendants(fs: FS, d: Path, q: Path)
    requires Valid(fs)
    requires Children(fs, d) == {}
    requires q in fs && d <= q
    ensures q == d
  {
    if |q| > |d| {
      ChildOnTheWay(fs, d, q);
      assert false;
    }
  }

  /** Every prefix of an entry is an entry. */
  lemma PrefixOfEntryPresent(fs: FS, q: Path, d: Path)
    requires Valid(fs)
    ensures q in fs && d <= q ==> d in fs
  {
    if q in fs && d <= q {
      AncestorPresent(fs, q, |d|);
      assert q[..|d|] == d;
    }
  }

  /** An entry strictly below `d` passes through a child of `d`. */
  lemma ChildOnTheWay(fs: FS, d: Path, q: Path)
    requires Valid(fs)
    requires q in fs && d <= q && |q| > |d|
    ensures q[..|d| + 1] in Children(fs, d)
  {
    AncestorPresent(fs, q, |d| + 1);
  }

  /** Every prefix of an entry is an entry. */
  lemma {:induction false} AncestorPresent(fs: FS, q: Path, k: nat)
    requires Valid(fs)
    requires q in fs && k <= |q|
    ensures q[..k] in fs && (k < |q| ==> fs[q[..k]] == Dir)
    decreases |q| - k
  {
    if k < |q| {
      if k + 1 < |q| {
        AncestorPresent(fs, q, k + 1);
        assert Parent(q[..k + 1]) == q[..k];
      } else {
        assert Parent(q) == q[..k];
      }
    } else {
      assert q[..k] == q;
    }
  }

  /** The prefix of `p` of length `k`. */
  function Prefix(p: Path, k: nat): Path
    requires k <= |p|
  {
    p[..k]
  }

  /** No prefix of `p`, `p` included, is a file. */
  predicate NoFileOnPath(fs: FS, p: Path)
  {
    forall k :: 0 <= k <= |p| ==> !IsFileAt(fs, Prefix(p, k))
  }

  lemma NoFileOnPathStep(fs: FS, p: Path)
    requires |p| > 0
    ensures NoFileOnPath(fs, p) <==> NoFileOnPath(fs, Parent(p)) && !IsFileAt(fs, p)
  {
    assert Prefix(p, |p|) == p;
    forall k | 0 <= k <= |p| - 1
      ensures Prefix(p, k) == Prefix(Parent(p), k)
    {
    }
  }

  /** Below an existing directory no prefix is a file. */
  lemma NoFileBelowDir(fs: FS, p: Path)
    requires Valid(fs) && IsDirAt(fs, p)
    ensures NoFileOnPath(fs, p)
  {
    forall k | 0 <= k <= |p|
      ensures !IsFileAt(fs, Prefix(p, k))
    {
      AncestorPresent(fs, p, k);
      assert Prefix(p, |p|) == p;
    }
  }

  /** The parents-first chain of missing directories `mkdir(parents=True)`
      creates; fails with `NotADirectoryError` when an ancestor is a file. */
  function CreateChain(fs: FS, p: Path): Option<FS>
    decreases |p|
  {
    if |p| == 0 then Some(fs[p := Dir])
    else if Parent(p) in fs then
      if fs[Parent(p)] == Dir then Some(fs[p := Dir]) else None
    else
      match CreateChain(fs, Parent(p))
      case None => None
      case Some(fs1) => Some(fs1[p := Dir])
  }

  /** `p.mkdir(parents=True, exist_ok=True)`: a file at `p` is `EEXIST`; a
      file above it makes the very first `mkdir(p)` fail with `ENOTDIR`, so
      the error names `p` itself. */
  function Mkdirs(fs: FS, p: Path): (r: Result<FS, Exc>)
  {
    if p in fs then
      if fs[p] == Dir then Ok(fs) else Err(OSErr(EEXIST, Quoted(p)))
    else
      match CreateChain(fs, p)
      case None => Err(OSErr(ENOTDIR, Quoted(p)))
      case Some(fs1) => Ok(fs1)
  }

  /** `mkdir(parents=True, exist_ok=True)` only ever raises an `OSError`. */
  lemma MkdirsRaisesOSError(fs: FS, p: Path)
    ensures Mkdirs(fs, p).Err? ==> IsOSError(Mkdirs(fs, p).error)
  {
  }

  /** Which `OSError` a failed `mkdir(parents=True, exist_ok=True)` raises: a
      file at the path is `FileExistsError`, a file above it
      `NotADirectoryError`; both name the path. */
  lemma MkdirsErrors(fs: FS, p: Path)
    requires Valid(fs)
    ensures IsFileAt(fs, p) ==> Mkdirs(fs, p) == Err(OSErr(EEXIST, Quoted(p)))
    ensures !IsFileAt(fs, p) && !NoFileOnPath(fs, p) ==> Mkdirs(fs, p) == Err(OSErr(ENOTDIR, Quoted(p)))
  {
    MkdirsSpec(fs, p);
  }

  /** What a successful `mkdir(parents=True)` leaves behind: a well-formed file
      system where the path is a directory, existing entries keep their
      contents and only directories on the path are added. */
  predicate MkdirsOutcome(fs: FS, p: Path, fs': FS)
  {
    && Valid(fs')
    && IsDirAt(fs', p)
    && (forall q :: q in fs ==> q in fs' && fs'[q] == fs[q])
    && (forall q :: q in fs' && q !in fs ==> q <= p && fs'[q] == Dir)
  }

  /** `mkdir(parents=True, exist_ok=True)` succeeds exactly when no prefix of
      the path (the path included) is a file, and then leaves `MkdirsOutcome`. */
  lemma MkdirsSpec(fs: FS, p: Path)
    requires Valid(fs)
    ensures Mkdirs(fs, p).Ok? <==> NoFileOnPath(fs, p)
    ensures Mkdirs(fs, p).Ok? ==> MkdirsOutcome(fs, p, Mkdirs(fs, p).value)
  {
    assert Prefix(p, |p|) == p;
    if p !in fs {
      CreateChainSpec(fs, p);
    } else if fs[p] == Dir {
      NoFileBelowDir(fs, p);
    }
  }

  lemma {:induction false} CreateChainSpec(fs: FS, p: Path)
    requires Valid(fs)
    requires p !in fs
    ensures CreateChain(fs, p).Some? <==> NoFileOnPath(fs, p)
    ensures CreateChain(fs, p).Some? ==> MkdirsOutcome(fs, p, CreateChain(fs, p).value)
    decreases |p|
  {
    assert |p| > 0;
    NoFileOnPathStep(fs, p);
    var q := Parent(p);
    if q in fs {
      if fs[q] == Dir {
        NoFileBelowDir(fs, q);
        assert CreateChain(fs, p) == Some(fs[p := Dir]);
        DirectOutcome(fs, p);
      } else {
        assert CreateChain(fs, p).None?;
        assert Prefix(q, |q|) == q;
        assert IsFileAt(fs, Prefix(q, |q|));
      }
    } else {
      CreateChainSpec(fs, q);
      match CreateChain(fs, q)
      case None =>
        assert CreateChain(fs, p).None?;
      case Some(fs1) =>
        assert CreateChain(fs, p) == Some(fs1[p := Dir]);
        ExtendOutcome(fs, fs1, p);
    }
  }

  lemma DirectOutcome(fs: FS, p: Path)
    requires Valid(fs) && |p| > 0 && IsDirAt(fs, Parent(p)) && p !in fs
    ensures MkdirsOutcome(fs, p, fs[p := Dir])
  {
    AddLeafDir(fs, p);
  }

  lemma ExtendOutcome(fs: FS, fs1: FS, p: Path)
    requires |p| > 0 && p !in fs
    requires MkdirsOutcome(fs, Parent(p), fs1)
    ensures MkdirsOutcome(fs, p, fs1[p := Dir])
  {
    assert p !in fs1 by {
      assert !(p <= Parent(p));
    }
    AddLeafDir(fs1, p);
    var fs' := fs1[p := Dir];
    forall x | x in fs' && x !in fs
      ensures x <= p && fs'[x] == Dir
    {
      if x != p {
        assert x <= Parent(p);
      }
    }
  }

  /** `after` keeps every entry of `before` as it was and adds only directories. */
  predicate Grows(before: FS, after: FS)
  {
    && (forall q :: q in before ==> q in after && after[q] == before[q])
    && (forall q :: q in after && q !in before ==> after[q] == Dir)
  }

  /** `os.mkdir(p)`: creates one directory where `open` would create a file;
      an existing entry, the root or a trailing `..` is `EEXIST`. */
  function OsMkdir(fs: FS, p: RawPath): (r: Result<FS, Exc>)
    ensures r.Ok? <==> Locate(fs, p).Some? && Locate(fs, p).value !in fs
    ensures r.Ok? ==> r.value == fs[Locate(fs, p).value := Dir] && Grows(fs, r.value)
    ensures r.Err? ==> IsOSError(r.error)
  {
    match Locate(fs, p)
    case None =>
      if |p| == 0 then Err(OSErr(EEXIST, Quoted(p)))
      else if (NameOf(p) == ".." || NameOf(p) == "." || NameOf(p) == "") && IsDir(fs, Parent(p))
      then Err(OSErr(EEXIST, Quoted(p)))
      else Err(OSErr(WalkFailure(fs, p), Quoted(p)))
    case Some(t) =>
      if t in fs then Err(OSErr(EEXIST, Quoted(p))) else Ok(fs[t := Dir])
  }

  /** `os.makedirs(p)`: a parent that does not exist is made first, and a
      `FileExistsError` from doing so is ignored; then `p` itself is made.
      Directories made before a failure stay. */
  function OsMakedirs(fs: FS, p: RawPath): (s: Step<RawPath>)
    ensures Grows(fs, s.fs)
    ensures s.r.Ok? ==> s.r.value == p
    ensures s.r.Err? ==> IsOSError(s.r.error)
    decreases |p|
  {
    if |p| == 0 || Exists(fs, Parent(p)) then
      match OsMkdir(fs, p)
      case Err(e) => Step(fs, Err(e))
      case Ok(fs1) => Step(fs1, Ok(p))
    else
      var up := OsMakedirs(fs, Parent(p));
      if up.r.Err? && up.r.error.kind != FileExistsError then Step(up.fs, Err(up.r.error))
      else if NameOf(p) == "." then Step(up.fs, Ok(p))
      else
        match OsMkdir(up.fs, p)
        case Err(e) => Step(up.fs, Err(e))
        case Ok(fs1) => Step(fs1, Ok(p))
  }

  /** On a missing normal path `os.makedirs` does what `mkdir(parents=True)`
      does: it succeeds exactly when `Mkdirs` does, leaves the same file
      system, and otherwise raises `NotADirectoryError`. */
  lemma {:induction false} OsMakedirsIsMkdirs(fs: FS, p: Path)
    requires Valid(fs) && p !in fs
    ensures var s := OsMakedirs(fs, p);
            && (s.r.Ok? <==> Mkdirs(fs, p).Ok?)
            && (s.r.Ok? ==> s.fs == Mkdirs(fs, p).value)
            && (s.r.Err? ==> s.r.error.kind == NotADirectoryError)
    decreases |p|
  {
    assert |p| > 0;
    var q := Parent(p);
    if q !in fs {
      OsMakedirsIsMkdirs(fs, q);
      OsMakedirsAbove(fs, p);
    } else if fs[q] == Dir {
      OsMakedirsOneLevel(fs, p);
    } else {
      OsMakedirsBelowFile(fs, p);
    }
  }

  /** Below a file, `os.makedirs` and `mkdir(parents=True)` both fail at once. */
  lemma OsMakedirsBelowFile(fs: FS, p: Path)
    requires Valid(fs) && |p| > 0 && IsFileAt(fs, Parent(p)) && p !in fs
    ensures OsMakedirs(fs, p) == Step(fs, Err(OSErr(ENOTDIR, Quoted(p))))
    ensures Mkdirs(fs, p).Err?
  {
    WalkOfNormal(fs, Parent(p));
    assert IsOrdinary(NameOf(p));
  }

  /** With a missing parent, `os.makedirs` first makes the parent, then `p`
      in it, just as `mkdir(parents=True)` does. */
  lemma OsMakedirsAbove(fs: FS, p: Path)
    requires Valid(fs) && |p| > 0 && p !in fs && Parent(p) !in fs
    requires var up := OsMakedirs(fs, Parent(p));
             && (up.r.Ok? <==> Mkdirs(fs, Parent(p)).Ok?)
             && (up.r.Ok? ==> up.fs == Mkdirs(fs, Parent(p)).value)
             && (up.r.Err? ==> up.r.error.kind == NotADirectoryError)
    ensures var s := OsMakedirs(fs, p);
            && (s.r.Ok? <==> Mkdirs(fs, p).Ok?)
            && (s.r.Ok? ==> s.fs == Mkdirs(fs, p).value)
            && (s.r.Err? ==> s.r.error.kind == NotADirectoryError)
  {
    var q := Parent(p);
    assert IsOrdinary(NameOf(p));
    assert !Exists(fs, q) by {
      WalkOfNormal(fs, q);
    }
    var up := OsMakedirs(fs, q);
    if up.r.Ok? {
      var fs1 := up.fs;
      assert Valid(fs1) && IsDirAt(fs1, q) && p !in fs1 by {
        CreateChainSpec(fs, q);
        assert MkdirsOutcome(fs, q, fs1);
        assert !(p <= q);
      }
      OsMakedirsOneLevel(fs1, p);
      assert OsMakedirs(fs, p) == Step(fs1[p := Dir], Ok(p));
      assert CreateChain(fs, p) == Some(fs1[p := Dir]);
    } else {
      assert OsMakedirs(fs, p) == Step(up.fs, Err(up.r.error));
      assert CreateChain(fs, p) == None;
    }
  }


  /** `os.makedirs` of a missing name inside an existing directory makes just
      that directory, keeping the file system well formed. */
  lemma OsMakedirsOneLevel(fs: FS, p: Path)
    requires Valid(fs) && |p| > 0 && IsDirAt(fs, Parent(p)) && p !in fs
    ensures OsMkdir(fs, p) == Ok(fs[p := Dir])
    ensures OsMakedirs(fs, p) == Step(fs[p := Dir], Ok(p))
    ensures Valid(fs[p := Dir])
  {
    WalkOfNormal(fs, Parent(p));
    assert Parent(p) + [NameOf(p)] == p;
    assert Locate(fs, p) == Some(p);
    AddLeafDir(fs, p);
  }

  /** Adding a directory inside an existing directory keeps the file system well formed. */
  lemma AddLeafDir(fs: FS, p: Path)
    requires Valid(fs) && |p| > 0 && IsDirAt(fs, Parent(p)) && p !in fs
    ensures Valid(fs[p := Dir])
  {
    AddLeaf(fs, p, Dir);
  }

  /** Adding a new entry inside an existing directory keeps the file system well formed. */
  lemma AddLeaf(fs: FS, p: Path, n: Node)
    requires Valid(fs) && |p| > 0 && IsDirAt(fs, Parent(p)) && p !in fs
    ensures Valid(fs[p := n])
  {
    var fs' := fs[p := n];
    forall x | x in fs' && |x| > 0
      ensures Parent(x) in fs' && fs'[Parent(x)] == Dir
    {
      if x != p {
        assert x in fs;
      }
    }
  }

  /** Writing to a normal path inside an existing directory, where no directory
      stands, creates or replaces exactly that file. */
  lemma WriteNormal(fs: FS, p: Path, data: Bytes)
    requires Valid(fs) && |p| > 0 && IsDirAt(fs, Parent(p)) && !IsDirAt(fs, p)
    ensures WriteFile(fs, p, data) == Ok(fs[p := File(data)])
    ensures Valid(fs[p := File(data)])
  {
    WalkOfNormal(fs, Parent(p));
    assert Parent(p) + [NameOf(p)] == p;
    var fs' := fs[p := File(data)];
    forall x | x in fs' && |x| > 0
      ensures Parent(x) in fs' && fs'[Parent(x)] == Dir
    {
      if x != p {
        assert x in fs;
      }
    }
  }

  /** Reading a normal path reads the entry itself. */
  lemma ReadNormal(fs: FS, p: Path)
    requires Valid(fs)
    ensures Read(fs, p).Ok? <==> IsFileAt(fs, p)
    ensures Read(fs, p).Ok? ==> Read(fs, p).value == fs[p].data
  {
    WalkOfNormal(fs, p);
  }

  /** Reading a path right after writing it gives the written bytes. */
  lemma ReadAfterWrite(fs: FS, p: RawPath, data: Bytes)
    requires WriteFile(fs, p, data).Ok?
    ensures Read(WriteFile(fs, p, data).value, p) == Ok(data)
  {
    var t := Locate(fs, p).value;
    WalkAfterNewFile(fs, Parent(p), t, File(data));
  }

  /** Writing a file at `t` changes no walk, except that one which used to fail
      may now end at `t`. */
  lemma {:induction false} WalkAfterNewFile(fs: FS, p: RawPath, t: Path, n: Node)
    requires t !in fs || fs[t].File?
    requires n.File?
    ensures var w := Walk(fs[t := n], p);
            w == Walk(fs, p) || (w == Some(t) && Walk(fs, p) == None)
  {
    if |p| > 0 {
      WalkAfterNewFile(fs, Parent(p), t, n);
    }
  }
}
