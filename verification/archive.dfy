/** ZIP extraction and packing (`extract_zip_archive`, `create_zip_archive`
    in `app/services/utils.py`), over an abstract archive: a list of named
    byte strings. The binary format is the `ZipLib` oracle. */
module Archive {
  import opened Wrappers
  import opened Errors
  import opened PyStr
  import opened PyPath
  import opened FileSystem

  datatype Entry = Entry(name: string, data: Bytes)
  type Zip = seq<Entry>

  /** `zipfile` as an oracle: reading an archive (None is `BadZipFile`) and
      writing one. */
  datatype ZipLib = ZipLib(parse: Bytes -> Option<Zip>, serialize: Zip -> Bytes)

  /** The oracle reads back what it writes. */
  ghost predicate RoundTrips(lib: ZipLib)
  {
    forall z :: lib.parse(lib.serialize(z)) == Some(z)
  }

  /** `zip_ref.namelist()`: the member names in archive order, duplicates kept. */
  function Names(z: Zip): (ns: seq<string>)
    ensures |ns| == |z|
    ensures forall i :: 0 <= i < |z| ==> ns[i] == z[i].name
  {
    if |z| == 0 then [] else [z[0].name] + Names(z[1..])
  }

  /** `zip_ref.open(name).read()`: the data of the LAST entry with that name. */
  function MemberData(z: Zip, name: string): Bytes
  {
    if |z| == 0 then []
    else if z[|z| - 1].name == name then z[|z| - 1].data
    else MemberData(z[..|z| - 1], name)
  }

  lemma {:induction false} MemberDataOfUnique(z: Zip, i: nat)
    requires i < |z|
    requires forall j :: 0 <= j < |z| && j != i ==> z[j].name != z[i].name
    ensures MemberData(z, z[i].name) == z[i].data
  {
    if i != |z| - 1 {
      MemberDataOfUnique(z[..|z| - 1], i);
    }
  }

  /** `(extract_to_dir / member).resolve()` without symbolic links. */
  function Destination(dir: Path, member: string): Path
  {
    var j := Join(dir, member);
    assert forall i :: 0 <= i < |j| ==> IsComponent(j[i]);
    NormalizeIsNormal(j);
    Normalize(j)
  }

  /** The two containment tests: the one the code calls (`Path.starts_with`,
      which does not exist and raises `AttributeError`), and the segment-prefix
      test its log message describes. */
  datatype Guard = StartsWith | SegmentPrefix

  const NoStartsWith: Exc := Exc(AttributeError, "'PosixPath' object has no attribute 'starts_with'")


  /** One member of the `namelist()` loop: a directory entry is skipped; a
      destination outside `dir` is skipped; otherwise its parent directories are
      created and the member's data written there. */
  function ExtractMember(g: Guard, z: Zip, fs: FS, dir: Path, m: string): Step<Option<Path>>
  {
    if EndsWith(m, "/") then Step(fs, Ok(None))
    else
      var dest := Destination(dir, m);
      if g == StartsWith then Step(fs, Err(NoStartsWith))
      else if !Within(dest, dir) then Step(fs, Ok(None))
      else
        match Mkdirs(fs, Parent(dest))
        case Err(e) => Step(fs, Err(e))
        case Ok(fs1) =>
          match WriteFile(fs1, dest, MemberData(z, m))
          case Err(e) => Step(fs1, Err(e))
          case Ok(fs2) => Step(fs2, Ok(Some(dest)))
  }

  /** The loop over `ms`, collecting the written paths in order; the first
      exception stops it with the files written so far left in place. */
  function ExtractMembers(g: Guard, z: Zip, fs: FS, dir: Path, ms: seq<string>): Step<seq<Path>>
    decreases |ms|
  {
    if |ms| == 0 then Step(fs, Ok([]))
    else
      var s := ExtractMember(g, z, fs, dir, ms[0]);
      match s.r
      case Err(e) => Step(s.fs, Err(e))
      case Ok(written) =>
        var rest := ExtractMembers(g, z, s.fs, dir, ms[1..]);
        match rest.r
        case Err(e) => Step(rest.fs, Err(e))
        case Ok(ps) => Step(rest.fs, Ok((if written.Some? then [written.value] else []) + ps))
  }

  /** `extract_zip_archive(zip_path, extract_to_dir)`: the destination is created
      first (outside the `try`), an unreadable archive becomes "Invalid ZIP file
      provided." and any other failure "Failed to extract ZIP archive: ...". */
  function ExtractWith(g: Guard, lib: ZipLib, fs: FS, zipPath: RawPath, dir: Path): Step<seq<Path>>
  {
    match Mkdirs(fs, dir)
    case Err(e) => Step(fs, Err(e))
    case Ok(fs1) =>
      match Read(fs1, zipPath)
      case Err(e) => Step(fs1, Err(ExtractFailed(e)))
      case Ok(bytes) =>
        match lib.parse(bytes)
        case None => Step(fs1, Err(Exc(Exception, "Invalid ZIP file provided.")))
        case Some(z) =>
          var s := ExtractMembers(g, z, fs1, dir, Names(z));
          match s.r
          case Ok(ps) => Step(s.fs, Ok(ps))
          case Err(e) => Step(s.fs, Err(ExtractFailed(e)))
  }

  /** `Exception(f"Failed to extract ZIP archive: {e}")`. */
  function ExtractFailed(e: Exc): Exc
  {
    Exc(Exception, "Failed to extract ZIP archive: " + Text(e))
  }

  /** The function as written: it calls the missing `Path.starts_with`. */
  function ExtractZipAsWritten(lib: ZipLib, fs: FS, zipPath: RawPath, dir: Path): Step<seq<Path>>
  {
    ExtractWith(StartsWith, lib, fs, zipPath, dir)
  }

  /** The function as intended: a segment-prefix containment test. */
  function ExtractZipArchive(lib: ZipLib, fs: FS, zipPath: RawPath, dir: Path): Step<seq<Path>>
  {
    ExtractWith(SegmentPrefix, lib, fs, zipPath, dir)
  }

  /** As written, the first member that is not a directory entry aborts the loop
      with `AttributeError`: only archives of bare directory entries extract. */
  lemma {:induction false} AsWrittenMembers(z: Zip, fs: FS, dir: Path, ms: seq<string>)
    ensures var s := ExtractMembers(StartsWith, z, fs, dir, ms);
            && s.fs == fs
            && (s.r.Ok? <==> forall i :: 0 <= i < |ms| ==> EndsWith(ms[i], "/"))
            && (s.r.Ok? ==> s.r.value == [])
            && (s.r.Err? ==> s.r.error == NoStartsWith)
  {
    if |ms| > 0 {
      AsWrittenMembers(z, fs, dir, ms[1..]);
      if EndsWith(ms[0], "/") {
        forall i | 0 < i < |ms|
          ensures ms[i] == ms[1..][i - 1]
        {
        }
      }
    }
  }

  /** The defect: extracting an archive holding a single file fails, with the
      `AttributeError` text in the message. */
  lemma AsWrittenRejectsEveryFile(lib: ZipLib, fs: FS, zipPath: RawPath, dir: Path, name: string, data: Bytes)
    requires Valid(fs) && IsDirAt(fs, dir)
    requires Read(fs, zipPath) == Ok(lib.serialize([Entry(name, data)]))
    requires RoundTrips(lib)
    requires !EndsWith(name, "/")
    ensures ExtractZipAsWritten(lib, fs, zipPath, dir).r == Err(ExtractFailed(NoStartsWith))
  {
    var z := [Entry(name, data)];
    assert Mkdirs(fs, dir) == Ok(fs);
    assert lib.parse(lib.serialize(z)) == Some(z);
    assert Names(z) == [name];
    AsWrittenMembers(z, fs, dir, [name]);
    assert ExtractMembers(StartsWith, z, fs, dir, Names(z)).r == Err(NoStartsWith);

  }

  /** As written, an extraction that succeeds has produced no path: the only
      archives it gets through hold directory entries and nothing else. */
  lemma AsWrittenExtractsNothing(lib: ZipLib, fs: FS, zipPath: RawPath, dir: Path)
    ensures ExtractZipAsWritten(lib, fs, zipPath, dir).r.Ok? ==> ExtractZipAsWritten(lib, fs, zipPath, dir).r.value == []
  {
    if Mkdirs(fs, dir).Ok? && Read(Mkdirs(fs, dir).value, zipPath).Ok? {
      var fs1 := Mkdirs(fs, dir).value;
      match lib.parse(Read(fs1, zipPath).value)
      case None =>
      case Some(z) => AsWrittenMembers(z, fs1, dir, Names(z));
    }
  }

  /** As written, any archive holding a member that is not a directory entry
      fails with the wrapped `AttributeError`, after the destination was
      created and before anything is written into it. */
  lemma AsWrittenFileMemberFails(lib: ZipLib, fs: FS, zipPath: RawPath, dir: Path, fs1: FS, data: Bytes, z: Zip, k: nat)
    requires Mkdirs(fs, dir) == Ok(fs1) && Read(fs1, zipPath) == Ok(data) && lib.parse(data) == Some(z)
    requires k < |z| && !EndsWith(z[k].name, "/")
    ensures ExtractZipAsWritten(lib, fs, zipPath, dir) == Step(fs1, Err(ExtractFailed(NoStartsWith)))
  {
    AsWrittenMembers(z, fs1, dir, Names(z));
    assert !EndsWith(Names(z)[k], "/");
  }

  /** What the corrected loop writes, as a filter over the member names: the
      destinations of the members that are not directory entries and lie
      inside `dir`, in archive order. */
  function Kept(dir: Path, ms: seq<string>): seq<Path>
  {
    if |ms| == 0 then []
    else if !EndsWith(ms[0], "/") && Within(Destination(dir, ms[0]), dir)
    then [Destination(dir, ms[0])] + Kept(dir, ms[1..])
    else Kept(dir, ms[1..])
  }

  /** A successful corrected extraction returns exactly the kept destinations,
      all inside the destination directory, in archive order. */
  lemma {:induction false} ExtractMembersKept(z: Zip, fs: FS, dir: Path, ms: seq<string>)
    ensures var s := ExtractMembers(SegmentPrefix, z, fs, dir, ms);
            s.r.Ok? ==> s.r.value == Kept(dir, ms)
    decreases |ms|
    ensures forall i :: 0 <= i < |Kept(dir, ms)| ==> Within(Kept(dir, ms)[i], dir)
  {
    if |ms| > 0 {
      var s := ExtractMember(SegmentPrefix, z, fs, dir, ms[0]);
      ExtractMembersKept(z, s.fs, dir, ms[1..]);
      ExtractMembersKept(z, fs, dir, ms[1..]);
    }
  }

  /** A member named `../x` is skipped rather than written beside the destination. */
  lemma ParentMemberSkipped(z: Zip, fs: FS, dir: Path, x: string)
    requires |dir| > 0 && IsOrdinary(x) && x != NameOf(dir)
    ensures ExtractMember(SegmentPrefix, z, fs, dir, "../" + x) == Step(fs, Ok(None))
  {
    ParentReferenceEscapes(dir, x);
    assert ("../" + x)[|"../" + x| - 1] == x[|x| - 1];
  }

  /** An absolute member name is resolved from the file-system root, so it is
      kept only when it happens to point inside the destination. */
  lemma AbsoluteMemberResolved(dir: Path, m: string)
    requires IsAbsolute(m)
    ensures Destination(dir, m) == Normalize(Components(m))
  {
  }

  /** `file_path.is_file()` for each input, read as `(name, bytes)` entries named
      by the base name; missing inputs are skipped. */
  function Gather(fs: FS, files: seq<RawPath>): (z: Zip)
    ensures |z| <= |files|
  {
    if |files| == 0 then []
    else
      var rest := Gather(fs, files[1..]);
      match Read(fs, files[0])
      case Ok(data) => [Entry(NameOf(files[0]), data)] + rest
      case Err(_) => rest
  }

  /** The entries of the inputs that are files, in input order, each named by
      its base name: an independent statement of `Gather` by index. */
  lemma {:induction false} GatherSpec(fs: FS, files: seq<RawPath>)
    ensures (forall i :: 0 <= i < |files| ==> IsFile(fs, files[i])) ==>
              |Gather(fs, files)| == |files|
              && forall i :: 0 <= i < |files| ==>
                   Gather(fs, files)[i] == Entry(NameOf(files[i]), Read(fs, files[i]).value)
    ensures (forall i :: 0 <= i < |files| ==> !IsFile(fs, files[i])) ==> Gather(fs, files) == []
  {
    if |files| > 0 {
      GatherSpec(fs, files[1..]);
      if forall i :: 0 <= i < |files| ==> IsFile(fs, files[i]) {
        assert forall i :: 0 <= i < |files| - 1 ==> files[1..][i] == files[i + 1];
      }
      if forall i :: 0 <= i < |files| ==> !IsFile(fs, files[i]) {
        assert forall i :: 0 <= i < |files| - 1 ==> files[1..][i] == files[i + 1];
      }
    }
  }

  /** Which inputs are files (`file_path.is_file()`). */
  function FileFlags(fs: FS, files: seq<RawPath>): (b: seq<bool>)
    ensures |b| == |files| && forall i :: 0 <= i < |files| ==> (b[i] <==> IsFile(fs, files[i]))
  {
    seq(|files|, i requires 0 <= i < |files| => IsFile(fs, files[i]))
  }

  /** `ks` lists, in increasing order, exactly the positions where `flags` holds. */
  predicate Picks(flags: seq<bool>, ks: seq<nat>)
  {
    && (forall j :: 0 <= j < |ks| ==> ks[j] < |flags| && flags[ks[j]])
    && (forall j, j' :: 0 <= j < j' < |ks| ==> ks[j] < ks[j'])
    && (forall i :: 0 <= i < |flags| && flags[i] ==> i in ks)
  }

  /** `ks` lists, in increasing order, exactly the positions of the inputs that
      are files. */
  predicate PicksFiles(fs: FS, files: seq<RawPath>, ks: seq<nat>)
  {
    Picks(FileFlags(fs, files), ks)
  }

  /** The entries of the inputs at positions `ks`, each named by its base name
      and holding the file's bytes. */
  function EntriesAt(fs: FS, files: seq<RawPath>, ks: seq<nat>): Zip
    requires PicksFiles(fs, files, ks)
  {
    seq(|ks|, j requires 0 <= j < |ks| => Entry(NameOf(files[ks[j]]), Read(fs, files[ks[j]]).value))
  }

  /** Whatever mix of files and missing paths the inputs hold, the archive's
      entries are those of the files among them, in input order, and nothing
      else. */
  lemma {:induction false} GatherPicksFiles(fs: FS, files: seq<RawPath>, ks: seq<nat>)
    requires PicksFiles(fs, files, ks)
    ensures Gather(fs, files) == EntriesAt(fs, files, ks)
  {
    if |files| > 0 {
      assert FileFlags(fs, files[1..]) == FileFlags(fs, files)[1..];
      if IsFile(fs, files[0]) {
        var ks' := PicksAfterTrue(FileFlags(fs, files), ks);
        GatherPicksFiles(fs, files[1..], ks');
        EntriesAtFirst(fs, files, ks, ks');
      } else {
        var ks' := PicksAfterFalse(FileFlags(fs, files), ks);
        GatherPicksFiles(fs, files[1..], ks');
        EntriesAtRest(fs, files, ks, ks');
      }
    } else {
      PicksInRange(FileFlags(fs, files), ks);
    }
  }

  /** With the first input picked first, its entry leads those of the rest. */
  lemma EntriesAtFirst(fs: FS, files: seq<RawPath>, ks: seq<nat>, ks': seq<nat>)
    requires |files| > 0 && IsFile(fs, files[0])
    requires PicksFiles(fs, files, ks) && PicksFiles(fs, files[1..], ks')
    requires |ks| > 0 && ks[0] == 0 && |ks'| == |ks| - 1
    requires forall j :: 0 <= j < |ks'| ==> ks'[j] + 1 == ks[j + 1]
    ensures EntriesAt(fs, files, ks) == [Entry(NameOf(files[0]), Read(fs, files[0]).value)] + EntriesAt(fs, files[1..], ks')
  {
    assert forall j :: 0 <= j < |ks'| ==> files[1..][ks'[j]] == files[ks[j + 1]];
  }

  /** With the first input not picked, the entries are those of the rest. */
  lemma EntriesAtRest(fs: FS, files: seq<RawPath>, ks: seq<nat>, ks': seq<nat>)
    requires |files| > 0
    requires PicksFiles(fs, files, ks) && PicksFiles(fs, files[1..], ks')
    requires |ks'| == |ks| && forall j :: 0 <= j < |ks'| ==> ks'[j] + 1 == ks[j]
    ensures EntriesAt(fs, files, ks) == EntriesAt(fs, files[1..], ks')
  {
    assert forall j :: 0 <= j < |ks'| ==> files[1..][ks'[j]] == files[ks[j]];
  }

  /** Every flag sequence has its picks: the positions where it holds, in order. */
  lemma {:induction false} PicksExist(flags: seq<bool>) returns (ks: seq<nat>)
    ensures Picks(flags, ks)
  {
    if |flags| == 0 {
      ks := [];
    } else {
      var rest := PicksExist(flags[1..]);
      var up := PicksUp(flags, rest);
      if flags[0] {
        ks := [0] + up;
        forall i | 0 <= i < |flags| && flags[i]
          ensures i in ks
        {
          if i > 0 {
            assert i in up;
          }
        }
      } else {
        ks := up;
      }
    }
  }

  /** The picks of all but the first flag, moved up by one, pick the flags
      after the first. */
  lemma PicksUp(flags: seq<bool>, rest: seq<nat>) returns (up: seq<nat>)
    requires |flags| > 0 && Picks(flags[1..], rest)
    ensures forall j :: 0 <= j < |up| ==> 0 < up[j] < |flags| && flags[up[j]]
    ensures forall j, j' :: 0 <= j < j' < |up| ==> up[j] < up[j']
    ensures forall i :: 0 < i < |flags| && flags[i] ==> i in up
  {
    up := seq(|rest|, j requires 0 <= j < |rest| => rest[j] + 1);
    assert forall j :: 0 <= j < |up| ==> flags[up[j]] == flags[1..][rest[j]];
    forall i | 0 < i < |flags| && flags[i]
      ensures i in up
    {
      assert flags[1..][i - 1] == flags[i];
      var j :| 0 <= j < |rest| && rest[j] == i - 1;
      assert up[j] == i;
    }
  }

  /** The first pick, if any, is a position of `flags`. */
  lemma PicksInRange(flags: seq<bool>, ks: seq<nat>)
    requires Picks(flags, ks)
    ensures |ks| == 0 || ks[0] < |flags|
  {
  }

  /** When the first flag holds, 0 is the first pick, and the other picks,
      moved down by one, pick the flags of the rest. */
  lemma PicksAfterTrue(flags: seq<bool>, ks: seq<nat>) returns (ks': seq<nat>)
    requires |flags| > 0 && flags[0] && Picks(flags, ks)
    ensures |ks| > 0 && ks[0] == 0 && |ks'| == |ks| - 1
    ensures forall j :: 0 <= j < |ks'| ==> ks'[j] + 1 == ks[j + 1]
    ensures Picks(flags[1..], ks')
  {
    assert 0 in ks;
    assert ks[0] == 0 by {
      var j :| 0 <= j < |ks| && ks[j] == 0;
      if j > 0 {
        assert ks[0] < ks[j];
      }
    }
    ks' := seq(|ks| - 1, j requires 0 <= j < |ks| - 1 => ks[j + 1] - 1);
    forall i | 0 <= i < |flags| - 1 && flags[1..][i]
      ensures i in ks'
    {
      var j :| 0 <= j < |ks| && ks[j] == i + 1;
      assert ks'[j - 1] == i;
    }
  }

  /** When the first flag fails no pick is 0, and the picks, moved down by
      one, pick the flags of the rest. */
  lemma PicksAfterFalse(flags: seq<bool>, ks: seq<nat>) returns (ks': seq<nat>)
    requires |flags| > 0 && !flags[0] && Picks(flags, ks)
    ensures |ks'| == |ks|
    ensures forall j :: 0 <= j < |ks'| ==> ks'[j] + 1 == ks[j]
    ensures Picks(flags[1..], ks')
  {
    ks' := seq(|ks|, j requires 0 <= j < |ks| => ks[j] - 1);
    forall i | 0 <= i < |flags| - 1 && flags[1..][i]
      ensures i in ks'
    {
      var j :| 0 <= j < |ks| && ks[j] == i + 1;
      assert ks'[j] == i;
    }
  }

  /** `create_zip_archive(files, out)`: the archive is opened for writing first,
      then gets one entry per existing input; failures become "Failed to create
      ZIP archive: ...". It returns the output path it was given. */
  function CreateZipArchive(lib: ZipLib, fs: FS, files: seq<RawPath>, out: RawPath): (s: Step<RawPath>)
    ensures s.r.Ok? ==> s.r.value == out
    ensures s.r.Ok? ==>
              && WriteFile(fs, out, lib.serialize([])).Ok?
              && Read(s.fs, out) == Ok(lib.serialize(Gather(WriteFile(fs, out, lib.serialize([])).value, files)))
  {
    match WriteFile(fs, out, lib.serialize([]))
    case Err(e) => Step(fs, Err(Exc(Exception, "Failed to create ZIP archive: " + Text(e))))
    case Ok(fs1) =>
      match WriteFile(fs1, out, lib.serialize(Gather(fs1, files)))
      case Err(e) => Step(fs1, Err(Exc(Exception, "Failed to create ZIP archive: " + Text(e))))
      case Ok(fs2) =>
        assert Read(fs2, out) == Ok(lib.serialize(Gather(fs1, files))) by { ReadAfterWrite(fs1, out, lib.serialize(Gather(fs1, files))); }
        Step(fs2, Ok(out))
  }

  /** One member with an ordinary name that is not yet present is written
      directly inside the destination directory. */
  lemma ExtractOneNew(z: Zip, fs: FS, dir: Path, n: string)
    requires Valid(fs) && IsDirAt(fs, dir)
    requires IsOrdinary(n) && dir + [n] !in fs
    ensures ExtractMember(SegmentPrefix, z, fs, dir, n) ==
              Step(fs[dir + [n] := File(MemberData(z, n))], Ok(Some(dir + [n])))
    ensures Valid(fs[dir + [n] := File(MemberData(z, n))])
  {
    assert n[|n| - 1] != '/';
    JoinOrdinaryWithin(dir, n);
    var dest: Path := dir + [n];
    assert Parent(dest) == dir;
    assert Mkdirs(fs, dir) == Ok(fs);
    WalkOfNormal(fs, dir);
    assert Locate(fs, dest) == Some(dest);
    AddLeaf(fs, dest, File(MemberData(z, n)));
  }

  /** The first of the remaining distinct members is written as a new file,
      and the later ones are still new after it. */
  lemma ExtractFirstNew(z: Zip, fs: FS, dir: Path, k: nat)
    requires k < |z|
    requires Valid(fs) && IsDirAt(fs, dir)
    requires forall j :: k <= j < |z| ==> IsOrdinary(z[j].name) && dir + [z[j].name] !in fs
    requires forall i, j :: 0 <= i < j < |z| ==> z[i].name != z[j].name
    ensures var fs1 := fs[dir + [z[k].name] := File(z[k].data)];
            && Valid(fs1) && IsDirAt(fs1, dir)
            && (forall j :: k + 1 <= j < |z| ==> IsOrdinary(z[j].name) && dir + [z[j].name] !in fs1)
            && var rest := ExtractMembers(SegmentPrefix, z, fs1, dir, Names(z)[k + 1..]);
            && ExtractMembers(SegmentPrefix, z, fs, dir, Names(z)[k..])
               == (match rest.r
                   case Err(e) => Step(rest.fs, Err(e))
                   case Ok(ps) => Step(rest.fs, Ok([dir + [z[k].name]] + ps)))
  {
    var n := z[k].name;
    ExtractOneNew(z, fs, dir, n);
    MemberDataOfUnique(z, k);
    var fs1 := fs[dir + [n] := File(z[k].data)];
    forall j | k + 1 <= j < |z|
      ensures dir + [z[j].name] !in fs1
    {
      assert (dir + [z[j].name])[|dir|] == z[j].name;
      assert (dir + [n])[|dir|] == n;
    }
    assert Names(z)[k..][0] == n;
    assert Names(z)[k..][1..] == Names(z)[k + 1..];
  }

  /** Members k.. can be extracted one file each: their names are ordinary,
      pairwise distinct and not yet taken in the directory. */
  ghost predicate Extractable(z: Zip, fs: FS, dir: Path, k: nat)
  {
    && k <= |z|
    && Valid(fs) && IsDirAt(fs, dir)
    && (forall j :: k <= j < |z| ==> IsOrdinary(z[j].name) && dir + [z[j].name] !in fs)
    && (forall i, j :: 0 <= i < j < |z| ==> z[i].name != z[j].name)
  }

  /** The members with distinct ordinary names are extracted one file each,
      into the directory, in order. */
  lemma {:induction false} ExtractDistinctPaths(z: Zip, fs: FS, dir: Path, k: nat)
    requires Extractable(z, fs, dir, k)
    ensures var s := ExtractMembers(SegmentPrefix, z, fs, dir, Names(z)[k..]);
            && s.r.Ok?
            && |s.r.value| == |z| - k
            && (forall i :: 0 <= i < |z| - k ==> s.r.value[i] == dir + [z[k + i].name])
    decreases |z| - k
  {
    if k < |z| {
      var n := z[k].name;
      var fs1 := fs[dir + [n] := File(z[k].data)];
      ExtractFirstNew(z, fs, dir, k);
      ExtractDistinctPaths(z, fs1, dir, k + 1);
      var rest := ExtractMembers(SegmentPrefix, z, fs1, dir, Names(z)[k + 1..]);
      var s := ExtractMembers(SegmentPrefix, z, fs, dir, Names(z)[k..]);
      assert s == Step(rest.fs, Ok([dir + [n]] + rest.r.value));
      forall i | 0 <= i < |z| - k
        ensures s.r.value[i] == dir + [z[k + i].name]
      {
        if i > 0 {
          assert s.r.value[i] == rest.r.value[i - 1];
        }
      }
    } else {
      assert Names(z)[k..] == [];
    }
  }

  /** Extracting such members leaves a well-formed tree holding each member's
      data under its name, and every earlier entry as it was. */
  lemma {:induction false} ExtractDistinctFiles(z: Zip, fs: FS, dir: Path, k: nat)
    requires Extractable(z, fs, dir, k)
    ensures var s := ExtractMembers(SegmentPrefix, z, fs, dir, Names(z)[k..]);
            && Valid(s.fs)
            && (forall j :: k <= j < |z| ==> dir + [z[j].name] in s.fs && s.fs[dir + [z[j].name]] == File(z[j].data))
            && (forall q :: q in fs ==> q in s.fs && s.fs[q] == fs[q])
    decreases |z| - k
  {
    if k < |z| {
      var n := z[k].name;
      var fs1 := fs[dir + [n] := File(z[k].data)];
      ExtractFirstNew(z, fs, dir, k);
      ExtractDistinctFiles(z, fs1, dir, k + 1);
    } else {
      assert Names(z)[k..] == [];
    }
  }

  /** Packing existing files into a new archive writes one entry per file, named
      by its base name, with the file's bytes. */
  lemma PackExisting(lib: ZipLib, fs: FS, files: seq<Path>, out: Path)
    requires Valid(fs)
    requires forall i :: 0 <= i < |files| ==> files[i] in fs && fs[files[i]].File?
    requires |out| > 0 && IsDirAt(fs, Parent(out)) && out !in fs
    ensures var z := Gather(fs[out := File(lib.serialize([]))], files);
            && CreateZipArchive(lib, fs, files, out) == Step(fs[out := File(lib.serialize(z))], Ok(out))
            && Valid(fs[out := File(lib.serialize(z))])
            && |z| == |files|
            && (forall i :: 0 <= i < |files| ==> z[i] == Entry(NameOf(files[i]), fs[files[i]].data))
  {
    var fs1 := fs[out := File(lib.serialize([]))];
    WriteNormal(fs, out, lib.serialize([]));
    forall i | 0 <= i < |files|
      ensures IsFile(fs1, files[i]) && Read(fs1, files[i]) == Ok(fs[files[i]].data)
    {
      ReadNormal(fs1, files[i]);
      WalkOfNormal(fs1, files[i]);
    }
    GatherSpec(fs1, files);
    var z := Gather(fs1, files);
    WriteNormal(fs1, out, lib.serialize(z));
    assert fs1[out := File(lib.serialize(z))] == fs[out := File(lib.serialize(z))];
  }

  /** Packing files with distinct base names and extracting the archive into an
      empty directory gives each file back, under its base name, in order. */
  lemma PackThenExtract(lib: ZipLib, fs: FS, files: seq<Path>, out: Path, dir: Path)
    requires RoundTrips(lib) && Valid(fs)
    requires forall i :: 0 <= i < |files| ==> files[i] in fs && fs[files[i]].File?
    requires forall i, j :: 0 <= i < j < |files| ==> NameOf(files[i]) != NameOf(files[j])
    requires |out| > 0 && IsDirAt(fs, Parent(out)) && out !in fs
    requires IsDirAt(fs, dir) && Children(fs, dir) == {} && Parent(out) != dir
    ensures var packed := CreateZipArchive(lib, fs, files, out);
            var s := ExtractZipArchive(lib, packed.fs, out, dir);
            && packed.r == Ok(out)
            && s.r.Ok? && |s.r.value| == |files|
            && (forall i :: 0 <= i < |files| ==> s.r.value[i] == dir + [NameOf(files[i])])
            && forall i :: 0 <= i < |files| ==>
                 dir + [NameOf(files[i])] in s.fs && s.fs[dir + [NameOf(files[i])]] == fs[files[i]]
  {
    PackExisting(lib, fs, files, out);
    var z := Gather(fs[out := File(lib.serialize([]))], files);
    var fs2 := fs[out := File(lib.serialize(z))];
    PackedExtractable(lib, fs, files, out, dir);
    ExtractDistinctPaths(z, fs2, dir, 0);
    ExtractDistinctFiles(z, fs2, dir, 0);
    assert Names(z)[0..] == Names(z);
    ReadNormal(fs2, out);
    ExtractReadsArchive(lib, fs2, out, dir, z);
  }

  /** The packed archive's members can be extracted into an empty directory. */
  lemma PackedExtractable(lib: ZipLib, fs: FS, files: seq<Path>, out: Path, dir: Path)
    requires Valid(fs)
    requires forall i :: 0 <= i < |files| ==> files[i] in fs && fs[files[i]].File?
    requires forall i, j :: 0 <= i < j < |files| ==> NameOf(files[i]) != NameOf(files[j])
    requires |out| > 0 && IsDirAt(fs, Parent(out)) && out !in fs
    requires IsDirAt(fs, dir) && Children(fs, dir) == {} && Parent(out) != dir
    ensures var z := Gather(fs[out := File(lib.serialize([]))], files);
            Extractable(z, fs[out := File(lib.serialize(z))], dir, 0)
  {
    PackExisting(lib, fs, files, out);
    var z := Gather(fs[out := File(lib.serialize([]))], files);
    var fs2 := fs[out := File(lib.serialize(z))];
    assert Valid(fs2);
    assert out != dir;
    assert IsDirAt(fs2, dir);
    EntriesFree(fs, files, z, out, lib.serialize(z), dir);
    EntriesDistinct(files, z);
  }

  /** Entries named after existing files are ordinary names, none of them
      taken in an empty directory other than the archive's own. */
  lemma EntriesFree(fs: FS, files: seq<Path>, z: Zip, out: Path, data: Bytes, dir: Path)
    requires Valid(fs)
    requires forall i :: 0 <= i < |files| ==> files[i] in fs && fs[files[i]].File?
    requires |z| == |files| && forall i :: 0 <= i < |files| ==> z[i].name == NameOf(files[i])
    requires Parent(out) != dir && IsDirAt(fs, dir) && Children(fs, dir) == {}
    ensures forall j :: 0 <= j < |z| ==> IsOrdinary(z[j].name) && dir + [z[j].name] !in fs[out := File(data)]
  {
    forall j | 0 <= j < |z|
      ensures IsOrdinary(z[j].name) && dir + [z[j].name] !in fs[out := File(data)]
    {
      var f := files[j];
      var c := dir + [z[j].name];
      assert |f| > 0;
      assert z[j].name == f[|f| - 1];
      assert Parent(c) == dir;
      assert c !in Children(fs, dir);
    }
  }

  /** Files with distinct base names give entries with distinct names. */
  lemma EntriesDistinct(files: seq<Path>, z: Zip)
    requires forall i, j :: 0 <= i < j < |files| ==> NameOf(files[i]) != NameOf(files[j])
    requires |z| == |files| && forall i :: 0 <= i < |files| ==> z[i].name == NameOf(files[i])
    ensures forall i, j :: 0 <= i < j < |z| ==> z[i].name != z[j].name
  {
    forall i, j | 0 <= i < j < |z|
      ensures z[i].name != z[j].name
    {
      assert z[i].name == NameOf(files[i]);
    }
  }

  /** Extraction from a file holding a well-formed archive is the member loop. */
  lemma ExtractReadsArchive(lib: ZipLib, fs: FS, zipPath: RawPath, dir: Path, z: Zip)
    requires RoundTrips(lib) && IsDirAt(fs, dir)
    requires Read(fs, zipPath) == Ok(lib.serialize(z))
    requires ExtractMembers(SegmentPrefix, z, fs, dir, Names(z)).r.Ok?
    ensures ExtractZipArchive(lib, fs, zipPath, dir) == ExtractMembers(SegmentPrefix, z, fs, dir, Names(z))
  {
    assert Mkdirs(fs, dir) == Ok(fs);
    assert lib.parse(lib.serialize(z)) == Some(z);
  }

  /** A destination that cannot be created raises its `OSError` as it is:
      the `mkdir` precedes the `try`, so nothing wraps it. */
  lemma ExtractMkdirsFails(g: Guard, lib: ZipLib, fs: FS, zipPath: RawPath, dir: Path)
    requires Mkdirs(fs, dir).Err?
    ensures IsOSError(Mkdirs(fs, dir).error)
    ensures ExtractWith(g, lib, fs, zipPath, dir) == Step(fs, Err(Mkdirs(fs, dir).error))
  {
    MkdirsRaisesOSError(fs, dir);
  }

  /** An archive file that cannot be read fails as an extraction failure,
      after the destination was created. */
  lemma ExtractUnreadable(g: Guard, lib: ZipLib, fs: FS, zipPath: RawPath, dir: Path, fs1: FS)
    requires Mkdirs(fs, dir) == Ok(fs1) && Read(fs1, zipPath).Err?
    ensures ExtractWith(g, lib, fs, zipPath, dir) == Step(fs1, Err(ExtractFailed(Read(fs1, zipPath).error)))
  {
  }

  /** Bytes that do not parse as an archive give "Invalid ZIP file provided."
      and no member is written. */
  lemma ExtractUnparsable(g: Guard, lib: ZipLib, fs: FS, zipPath: RawPath, dir: Path, fs1: FS, data: Bytes)
    requires Mkdirs(fs, dir) == Ok(fs1) && Read(fs1, zipPath) == Ok(data) && lib.parse(data).None?
    ensures ExtractWith(g, lib, fs, zipPath, dir) == Step(fs1, Err(Exc(Exception, "Invalid ZIP file provided.")))
  {
  }

  /** A parsed archive is decided by the member loop: its file system is
      kept, its success passes through and its failure is wrapped as an
      extraction failure. */
  lemma ExtractParsed(g: Guard, lib: ZipLib, fs: FS, zipPath: RawPath, dir: Path, fs1: FS, data: Bytes, z: Zip)
    requires Mkdirs(fs, dir) == Ok(fs1) && Read(fs1, zipPath) == Ok(data) && lib.parse(data) == Some(z)
    ensures ExtractWith(g, lib, fs, zipPath, dir).fs == ExtractMembers(g, z, fs1, dir, Names(z)).fs
    ensures ExtractMembers(g, z, fs1, dir, Names(z)).r.Ok? ==>
              ExtractWith(g, lib, fs, zipPath, dir).r == ExtractMembers(g, z, fs1, dir, Names(z)).r
    ensures ExtractMembers(g, z, fs1, dir, Names(z)).r.Err? ==>
              ExtractWith(g, lib, fs, zipPath, dir).r == Err(ExtractFailed(ExtractMembers(g, z, fs1, dir, Names(z)).r.error))
  {
  }
}
