/** `pathlib.PurePosixPath` semantics over component sequences.

    A path is the sequence of its components. Parsing a string drops empty
    and `.` components, as pathlib does, but keeps `..`; `resolve()` is the
    lexical normalisation `Normalize` (symbolic links are not modelled). */
module PyPath {
  import opened PyStr

  /** The components of a path; absolute in this model (the first component
      hangs off the filesystem root). */
  type RawPath = seq<string>

  /** A component pathlib keeps after parsing. */
  predicate IsComponent(c: string)
  {
    c != "" && c != "." && '/' !in c
  }

  /** A component that names an entry: not `..`. */
  predicate IsOrdinary(c: string)
  {
    IsComponent(c) && c != ".."
  }

  predicate IsNormal(p: RawPath)
  {
    forall i :: 0 <= i < |p| ==> IsOrdinary(p[i])
  }

  /** A single file or directory name: what a uuid4 string or a `{stem}_{id}` name is. */
  type Name = s: string | IsOrdinary(s) witness "x"

  /** A normalised path: no `..`, no empty or `.` components. */
  type Path = p: RawPath | IsNormal(p) witness []

  function KeepComponents(parts: seq<string>): (r: RawPath)
    requires forall i :: 0 <= i < |parts| ==> '/' !in parts[i]
    ensures forall i :: 0 <= i < |r| ==> IsComponent(r[i])
    ensures |r| <= |parts|
  {
    if |parts| == 0 then []
    else if parts[0] == "" || parts[0] == "." then KeepComponents(parts[1..])
    else [parts[0]] + KeepComponents(parts[1..])
  }

  /** The components of `PurePosixPath(s)`. */
  function Components(s: string): (r: RawPath)
    ensures forall i :: 0 <= i < |r| ==> IsComponent(r[i])
  {
    KeepComponents(Split(s, '/'))
  }

  predicate IsAbsolute(s: string)
  {
    |s| > 0 && s[0] == '/'
  }

  /** `base / s`: an absolute `s` replaces the base, as pathlib's join does. */
  function Join(base: RawPath, s: string): RawPath
  {
    if IsAbsolute(s) then Components(s) else base + Components(s)
  }

  /** Joining onto parsed components gives parsed components: no empty or `.`
      component appears. */
  lemma JoinComponents(base: RawPath, s: string)
    requires forall i :: 0 <= i < |base| ==> IsComponent(base[i])
    ensures forall i :: 0 <= i < |Join(base, s)| ==> IsComponent(Join(base, s)[i])
  {
  }

  /** `p.name`: the last component, "" for the root. */
  function NameOf(p: RawPath): string
  {
    if |p| == 0 then "" else p[|p| - 1]
  }

  /** `p.parent`: lexical, so the parent of `a/..` is `a`. */
  function Parent(p: RawPath): RawPath
  {
    if |p| == 0 then [] else p[..|p| - 1]
  }

  /** Index of the last '.', or -1. */
  function LastDot(s: string): (i: int)
    ensures -1 <= i < |s|
    ensures i >= 0 ==> s[i] == '.'
    ensures forall j :: i < j < |s| ==> s[j] != '.'
  {
    if |s| == 0 then -1
    else if s[|s| - 1] == '.' then |s| - 1
    else LastDot(s[..|s| - 1])
  }

  /** `PurePath.suffix` of a final component: from the last dot, provided the dot
      is neither the first nor the last character. */
  function Suffix(name: string): string
  {
    var i := LastDot(name);
    if 0 < i < |name| - 1 then name[i..] else ""
  }

  /** `PurePath.stem` of a final component. */
  function Stem(name: string): string
  {
    var i := LastDot(name);
    if 0 < i < |name| - 1 then name[..i] else name
  }

  /** Stem and suffix split a name: one is a prefix, the other the rest; the
      suffix is empty or a dot followed by at least one dot-free character. */
  lemma StemSuffix(name: string)
    ensures Stem(name) + Suffix(name) == name
    ensures Suffix(name) == "" || (|Suffix(name)| >= 2 && Suffix(name)[0] == '.'
                                   && '.' !in Suffix(name)[1..])
    ensures '/' in Suffix(name) ==> '/' in name
  {
    var i := LastDot(name);
    if 0 < i < |name| - 1 {
      assert name[..i] + name[i..] == name;
      var suf := name[i..];
      forall j | 0 <= j < |suf[1..]|
        ensures suf[1..][j] != '.'
      {
        assert suf[1..][j] == name[i + 1 + j];
      }
      if '/' in suf {
        var k :| 0 <= k < |suf| && suf[k] == '/';
        assert name[i + k] == '/';
      }
    }
  }

  /** The suffix of a file name, under a stem, can never produce a path
      separator or a parent reference. */
  lemma NameWithSuffixIsOrdinary(stem: Name, name: string)
    requires '/' !in name
    ensures IsOrdinary(stem + Suffix(name))
  {
    StemSuffix(name);
    var suf := Suffix(name);
    var s := stem + suf;
    forall k | 0 <= k < |s|
      ensures s[k] != '/'
    {
      if k >= |stem| {
        assert s[k] == suf[k - |stem|];
      }
    }
    if suf != "" {
      assert |s| >= 3;
    }
  }

  /** `resolve()` without symbolic links: `..` drops the previous component and
      stays at the root, as the operating system does. */
  function Normalize(p: RawPath): RawPath
  {
    if |p| == 0 then []
    else
      var q := Normalize(Parent(p));
      if NameOf(p) == ".." then Parent(q) else q + [NameOf(p)]
  }

  /** Normalising parsed components leaves a path with only ordinary names. */
  lemma {:induction false} NormalizeIsNormal(p: RawPath)
    requires forall i :: 0 <= i < |p| ==> IsComponent(p[i])
    ensures IsNormal(Normalize(p))
  {
    if |p| > 0 {
      NormalizeIsNormal(Parent(p));
    }
  }

  /** A path without `..` is its own normal form. */
  lemma {:induction false} NormalizeOfNormal(p: RawPath)
    requires IsNormal(p)
    ensures Normalize(p) == p
  {
    if |p| > 0 {
      NormalizeOfNormal(Parent(p));
      assert Parent(p) + [NameOf(p)] == p;
    }
  }

  /** Normalising a base followed by more components is normalising the rest
      from the base's normal form. */
  lemma {:induction false} NormalizeAppend(base: RawPath, rest: RawPath)
    requires IsNormal(base)
    requires IsNormal(rest)
    ensures Normalize(base + rest) == base + rest
  {
    assert IsNormal(base + rest);
    NormalizeOfNormal(base + rest);
  }

  /** `p` lies inside `base`: a component-wise prefix test, so that `area1`
      does not contain `area12`. */
  predicate Within(p: RawPath, base: RawPath)
  {
    base <= p
  }

  /** `str(p)` for a path taken from the file system's root: "/" before each
      component; the root renders as "". A relative root such as
      `temp_files` would render without the leading "/". */
  function Render(p: RawPath): string
  {
    if |p| == 0 then "" else "/" + p[0] + Render(p[1..])
  }

  /** Joining one ordinary name stays inside the base. */
  lemma JoinOrdinaryWithin(base: Path, name: string)
    requires IsOrdinary(name)
    ensures Join(base, name) == base + [name]
    ensures Normalize(Join(base, name)) == base + [name]
    ensures Within(Normalize(Join(base, name)), base)
  {
    assert Split(name, '/') == [name] by { SplitNoSep(name, '/'); }
    assert Components(name) == [name];
    NormalizeAppend(base, [name]);
  }

  /** `..` escapes: a member named `../x` lands beside the base, not inside it. */
  lemma ParentReferenceEscapes(base: Path, x: string)
    requires |base| > 0
    requires IsOrdinary(x) && x != NameOf(base)
    ensures Normalize(Join(base, "../" + x)) == Parent(base) + [x]
    ensures !Within(Normalize(Join(base, "../" + x)), base)
  {
    var s := "../" + x;
    assert s == ".." + "/" + x;
    SplitAfterSep("..", x, '/');
    SplitNoSep(x, '/');
    assert Split(s, '/') == ["..", x];
    assert ["..", x][1..] == [x];
    assert KeepComponents([x]) == [x];
    assert Components(s) == ["..", x];
    var p := base + ["..", x];
    assert Parent(p) == base + [".."];
    assert Parent(base + [".."]) == base;
    NormalizeOfNormal(base);
    assert Normalize(base + [".."]) == Parent(base);
    var q := Parent(base) + [x];
    assert |q| == |base|;
    assert q[|base| - 1] != base[|base| - 1];
  }

  /** An absolute member name replaces the base entirely. */
  lemma AbsoluteJoinReplaces(base: RawPath, s: string)
    requires IsAbsolute(s)
    ensures Join(base, s) == Components(s)
  {
  }

  /** Head-of-path comparison used by `WithinIffSeparatorPrefix`: two names that
      are each followed by a separator (or the end) and where one rendering is a
      prefix of the other are equal. */
  lemma HeadNamesAgree(x: string, y: string, r1: string, r2: string)
    requires '/' !in x && '/' !in y
    requires |r1| > 0 && r1[0] == '/'
    requires |r2| == 0 || r2[0] == '/'
    requires x + r1 <= y + r2
    ensures x == y && r1 <= r2
  {
    var a := x + r1;
    var b := y + r2;
    assert |a| <= |b|;
    assert b[|x|] == a[|x|] == '/';
    assert forall i :: 0 <= i < |y| ==> b[i] == y[i];
    assert |x| >= |y|;
    assert forall i :: 0 <= i < |x| ==> b[i] == a[i] == x[i];
    assert |r2| > 0;
    assert b[|y|] == '/';
    assert |x| == |y|;
    assert x == a[..|x|] == b[..|y|] == y;
    assert r1 == a[|x|..];
    assert r2 == b[|y|..];
  }

  lemma RenderStart(p: RawPath)
    ensures |Render(p)| == 0 || Render(p)[0] == '/'
    ensures |p| > 0 ==> |Render(p)| > 0
  {
  }

  /** The component prefix test agrees with the string test "equal, or the
      rendering of `base` followed by a separator is a prefix" and NOT with a
      bare string-prefix test (see `StringPrefixAdmitsSibling`). */
  lemma {:induction false} WithinIffSeparatorPrefix(p: RawPath, base: RawPath)
    requires forall i :: 0 <= i < |p| ==> '/' !in p[i]
    requires forall i :: 0 <= i < |base| ==> '/' !in base[i]
    ensures Within(p, base) <==> (p == base || Render(base) + "/" <= Render(p))
  {
    if |base| == 0 {
      RenderStart(p);
      if p != [] {
        assert Render(p)[..1] == "/";
      }
    } else if |p| == 0 {
      assert !Within(p, base);
      assert |Render(base) + "/"| > 0;
    } else {
      WithinIffSeparatorPrefix(p[1..], base[1..]);
      assert Render(base) + "/" == "/" + base[0] + (Render(base[1..]) + "/");
      assert Render(p) == "/" + p[0] + Render(p[1..]);
      if p == base || Render(base) + "/" <= Render(p) {
        if p != base {
          var r1 := Render(base[1..]) + "/";
          var r2 := Render(p[1..]);
          RenderStart(base[1..]);
          RenderStart(p[1..]);
          assert r1[0] == '/';
          assert ("/" + base[0] + r1)[1..] == base[0] + r1;
          assert ("/" + p[0] + r2)[1..] == p[0] + r2;
          assert base[0] + r1 <= p[0] + r2;
          HeadNamesAgree(base[0], p[0], r1, r2);
          assert base[1..] <= p[1..];
          assert base == [base[0]] + base[1..];
          assert p == [p[0]] + p[1..];
        }
      }
      if Within(p, base) {
        assert base[0] == p[0];
        assert base[1..] <= p[1..];
        if p[1..] == base[1..] {
          assert p == [p[0]] + p[1..] == [base[0]] + base[1..] == base;
        } else {
          assert Render(base[1..]) + "/" <= Render(p[1..]);
        }
      }
    }
  }

  /** The sibling bypass: `/tmp/area12` starts with the string `/tmp/area1` but is
      not inside it. */
  lemma StringPrefixAdmitsSibling()
    ensures Render(["tmp", "area1"]) <= Render(["tmp", "area12"])
    ensures !Within(["tmp", "area12"], ["tmp", "area1"])
  {
    assert Render(["tmp", "area1"]) == "/tmp/area1";
    assert Render(["tmp", "area12"]) == "/tmp/area12";
    assert ["tmp", "area12"][1] != ["tmp", "area1"][1];
  }
}
