/**
 * The patch index: the list of patch files it was built from and the list of target files,
 * each a list of part locators. Modelled here are the path normalisation, the lookup and
 * allocation of target files, the renumbering of the parts after files are removed, and the
 * names of the version files.
 */
module PatchIndex {
  import opened Wrappers
  import opened Ints
  import opened Strings
  import opened PartLocator
  import opened TargetFile
  import Repository

  const ExpacVersionBoot: int := -1
  const ExpacVersionBaseGame: int := 0

  // ---- NormalizePath ----

  /** String.Replace("\\", "/"). */
  function ForwardSlashes(s: string): (r: string)
    ensures |r| == |s|
    ensures forall i :: 0 <= i < |s| ==> r[i] == (if s[i] == '\\' then '/' else s[i])
  {
    seq(|s|, i requires 0 <= i < |s| => if s[i] == '\\' then '/' else s[i])
  }

  /** How many slashes the path starts with. */
  function LeadingSlashes(s: string): (n: nat)
    ensures n <= |s| && (n < |s| ==> s[n] != '/')
    ensures forall i :: 0 <= i < n ==> s[i] == '/'
  {
    if |s| > 0 && s[0] == '/' then
      var n := LeadingSlashes(s[1..]);
      assert forall i :: 1 <= i < n + 1 ==> s[i] == s[1..][i - 1];
      n + 1
    else 0
  }

  /** The path without its leading slashes. */
  function DropSlashes(s: string): string
  {
    s[LeadingSlashes(s)..]
  }

  /** NormalizePath, corrected: backslashes become slashes and leading slashes go; a path of separators only becomes "". */
  function Normalized(path: string): string
  {
    if path == "" then path else DropSlashes(ForwardSlashes(path))
  }

  predicate AllSeparators(s: string)
  {
    forall i :: 0 <= i < |s| ==> s[i] == '/' || s[i] == '\\'
  }

  /**
   * NormalizePath as written: the loop reads path[0] without checking the length, so a path
   * that is all separators ends in IndexOutOfRangeException.
   */
  function DropSlashesAsWritten(s: string): Result<string>
  {
    if |s| == 0 then Err(IndexOutOfRange)
    else if s[0] == '/' then DropSlashesAsWritten(s[1..])
    else Ok(s)
  }

  function NormalizeAsWritten(path: string): Result<string>
  {
    if path == "" then Ok(path) else DropSlashesAsWritten(ForwardSlashes(path))
  }

  /** The code as written throws exactly for a non-empty path of separators only, and otherwise agrees with the corrected function. */
  lemma {:induction false} AsWrittenThrowsOnSeparators(path: string)
    ensures NormalizeAsWritten(path).Err? <==> path != "" && AllSeparators(path)
    ensures NormalizeAsWritten(path).Err? ==> NormalizeAsWritten(path).error == IndexOutOfRange
    ensures NormalizeAsWritten(path).Ok? ==> NormalizeAsWritten(path).value == Normalized(path)
  {
    if path != "" {
      var s := ForwardSlashes(path);
      DropSlashesAgree(s);
      assert AllSeparators(path) <==> forall i :: 0 <= i < |s| ==> s[i] == '/';
    }
  }

  lemma {:induction false} DropSlashesAgree(s: string)
    ensures DropSlashesAsWritten(s).Err? <==> forall i :: 0 <= i < |s| ==> s[i] == '/'
    ensures DropSlashesAsWritten(s).Err? ==> DropSlashesAsWritten(s).error == IndexOutOfRange
    ensures DropSlashesAsWritten(s).Ok? ==> DropSlashesAsWritten(s).value == DropSlashes(s)
    decreases |s|
  {
    if |s| > 0 && s[0] == '/' {
      DropSlashesAgree(s[1..]);
      assert forall i :: 1 <= i < |s| ==> s[i] == s[1..][i - 1];
    }
  }

  /** The input that shows it: "/" throws. */
  lemma SlashThrows()
    ensures NormalizeAsWritten("/") == Err(IndexOutOfRange)
    ensures Normalized("/") == ""
  {
    assert ForwardSlashes("/") == "/";
    assert "/"[1..] == "";
  }

  /** The normalised path has no backslash, does not start with a slash, and is the rest of the path after its leading separators. */
  lemma NormalizedShape(path: string)
    ensures var r := Normalized(path);
      && (forall i :: 0 <= i < |r| ==> r[i] != '\\')
      && (|r| > 0 ==> r[0] != '/')
      && |r| <= |path|
      && AllSeparators(path[..|path| - |r|])
      && (forall i :: 0 <= i < |r| ==> r[i] == (if path[|path| - |r| + i] == '\\' then '/' else path[|path| - |r| + i]))
  {
    if path != "" {
      var s := ForwardSlashes(path);
      var k := LeadingSlashes(s);
      assert Normalized(path) == s[k..];
      assert forall i :: 0 <= i < k ==> path[..k][i] == path[i];
    }
  }

  /** Normalising twice is normalising once. */
  lemma NormalizedIdempotent(path: string)
    ensures Normalized(Normalized(path)) == Normalized(path)
  {
    var r := Normalized(path);
    NormalizedShape(path);
    if r != "" {
      assert ForwardSlashes(r) == r;
      assert DropSlashes(r) == r;
    }
  }

  /** The corrected loop. */
  method NormalizePath(path0: string) returns (path: string)
    ensures path == Normalized(path0)
  {
    if path0 == "" {
      return path0;
    }
    path := ForwardSlashes(path0);
    while |path| > 0 && path[0] == '/'
      invariant DropSlashes(path) == Normalized(path0)
    {
      path := path[1..];
    }
  }

  // ---- The list of target files ----

  /** The paths of the target files, in order. */
  function PathsOf(files: seq<IndexedZiPatchTargetFile>): (r: seq<string>)
    reads files
    ensures |r| == |files| && forall i :: 0 <= i < |files| ==> r[i] == files[i].relativePath
  {
    if files == [] then [] else [files[0].relativePath] + PathsOf(files[1..])
  }

  lemma PathsAppend(files: seq<IndexedZiPatchTargetFile>, f: IndexedZiPatchTargetFile)
    ensures PathsOf(files + [f]) == PathsOf(files) + [f.relativePath]
  {
    var a, b := PathsOf(files + [f]), PathsOf(files) + [f.relativePath];
    assert |a| == |b|;
    assert forall i :: 0 <= i < |a| ==> a[i] == b[i];
  }

  /** List.FindIndex: the first index holding `name`, or -1. */
  function FindIndex(paths: seq<string>, name: string): (r: int)
    ensures -1 <= r < |paths|
    ensures r >= 0 ==> paths[r] == name && forall j :: 0 <= j < r ==> paths[j] != name
    ensures r == -1 <==> forall j :: 0 <= j < |paths| ==> paths[j] != name
  {
    if paths == [] then -1
    else if paths[0] == name then 0
    else
      var r := FindIndex(paths[1..], name);
      assert forall j :: 1 <= j < |paths| ==> paths[j] == paths[1..][j - 1];
      if r == -1 then -1 else r + 1
  }

  /** Two indices that both satisfy FindIndex's contract are the same. */
  lemma FindIndexUnique(paths: seq<string>, name: string, i: int)
    requires -1 <= i < |paths|
    requires i >= 0 ==> paths[i] == name && forall j :: 0 <= j < i ==> paths[j] != name
    requires i == -1 ==> forall j :: 0 <= j < |paths| ==> paths[j] != name
    ensures FindIndex(paths, name) == i
  {
  }

  /** A name appended at the end of a list that lacks it is found at the end. */
  lemma FindAppended(paths: seq<string>, name: string)
    requires forall j :: 0 <= j < |paths| ==> paths[j] != name
    ensures FindIndex(paths + [name], name) == |paths|
  {
    FindIndexUnique(paths + [name], name, |paths|);
  }

  /** The index's mutable state: the patch files and the target files. */
  class IndexedZiPatchIndex {
    const expacVersion: int32
    var sourceFiles: seq<string>
    var sourceFileLastPtr: seq<int64>
    var targetFiles: seq<IndexedZiPatchTargetFile>

    /** No target file object is listed twice. */
    predicate Valid()
      reads this
    {
      forall i, j :: 0 <= i < j < |targetFiles| ==> targetFiles[i] != targetFiles[j]
    }

    constructor (expac: int32)
      ensures expacVersion == expac && sourceFiles == [] && sourceFileLastPtr == [] && targetFiles == []
      ensures Valid()
    {
      expacVersion := expac;
      sourceFiles := [];
      sourceFileLastPtr := [];
      targetFiles := [];
    }

    /** IndexOf: the first target file whose path is the normalised name, or -1. */
    method IndexOf(name: string) returns (r: int)
      ensures r == FindIndex(PathsOf(targetFiles), Normalized(name))
    {
      ghost var paths := PathsOf(targetFiles);
      var n := NormalizePath(name);
      var i := 0;
      while i < |targetFiles|
        invariant 0 <= i <= |targetFiles|
        invariant forall k :: 0 <= k < i ==> paths[k] != n
      {
        if targetFiles[i].relativePath == n {
          FindIndexUnique(paths, n, i);
          return i;
        }
        i := i + 1;
      }
      FindIndexUnique(paths, n, -1);
      return -1;
    }

    /** AllocFile: the target file with the normalised path, appending a new empty one when there is none. */
    method AllocFile(target: string) returns (index: int, file: IndexedZiPatchTargetFile)
      requires Valid()
      modifies this
      ensures Valid()
      ensures sourceFiles == old(sourceFiles) && sourceFileLastPtr == old(sourceFileLastPtr)
      ensures var n, found := Normalized(target), FindIndex(old(PathsOf(targetFiles)), Normalized(target));
        && (found >= 0 ==> targetFiles == old(targetFiles) && index == found)
        && (found < 0 ==> targetFiles == old(targetFiles) + [file] && fresh(file) && index == |old(targetFiles)|
                          && file.relativePath == n && file.parts == [])
      ensures 0 <= index < |targetFiles| && file == targetFiles[index]
      ensures FindIndex(PathsOf(targetFiles), Normalized(target)) == index
    {
      var n := NormalizePath(target);
      NormalizedIdempotent(target);
      index := IndexOf(n);
      if index == -1 {
        file := AddFile(n);
        index := |targetFiles| - 1;
      } else {
        file := targetFiles[index];
      }
    }

    /** List.Add of a new, empty target file. */
    method AddFile(n: string) returns (file: IndexedZiPatchTargetFile)
      requires Valid() && FindIndex(PathsOf(targetFiles), n) == -1
      modifies this
      ensures Valid()
      ensures sourceFiles == old(sourceFiles) && sourceFileLastPtr == old(sourceFileLastPtr)
      ensures targetFiles == old(targetFiles) + [file] && fresh(file) && file.relativePath == n && file.parts == []
      ensures FindIndex(PathsOf(targetFiles), n) == |targetFiles| - 1
    {
      file := new IndexedZiPatchTargetFile(n);
      ghost var before, others := PathsOf(targetFiles), targetFiles;
      assert forall k :: 0 <= k < |others| ==> others[k] != file;
      targetFiles := targetFiles + [file];
      assert Valid() by {
        assert forall k :: 0 <= k < |others| ==> targetFiles[k] == others[k];
      }
      PathsAppend(others, file);
      FindAppended(before, n);
    }

    /** ReassignTargetIndices: every part of target file i gets target index i; an index above 255 throws. */
    method ReassignTargetIndices() returns (failure: Option<Error>)
      requires Valid()
      modifies targetFiles
      ensures failure.None? <==> forall i :: 256 <= i < |targetFiles| ==> old(targetFiles[i].parts) == []
      ensures failure.Some? ==> failure == Some(ValueTooBig)
      ensures failure.None? ==> forall i :: 0 <= i < |targetFiles| ==> targetFiles[i].parts == Reindexed(old(targetFiles[i].parts), i)
      ensures failure.None? ==> forall i, j :: 0 <= i < |targetFiles| && 0 <= j < |targetFiles[i].parts| ==> TargetIndex(targetFiles[i].parts[j]) == i
      ensures forall i :: 0 <= i < |targetFiles| ==> targetFiles[i].relativePath == old(targetFiles[i].relativePath)
    {
      var i := 0;
      while i < |targetFiles|
        invariant 0 <= i <= |targetFiles|
        invariant forall k :: 0 <= k < i ==> targetFiles[k].parts == Reindexed(old(targetFiles[k].parts), k)
        invariant forall k :: i <= k < |targetFiles| ==> targetFiles[k].parts == old(targetFiles[k].parts)
        invariant forall k :: 0 <= k < |targetFiles| ==> targetFiles[k].relativePath == old(targetFiles[k].relativePath)
        invariant forall k :: 256 <= k < i ==> old(targetFiles[k].parts) == []
      {
        failure := SetTargetIndex(targetFiles[i], i);
        if failure.Some? {
          return;
        }
        i := i + 1;
      }
      forall i, j | 0 <= i < |targetFiles| && 0 <= j < |targetFiles[i].parts|
        ensures TargetIndex(targetFiles[i].parts[j]) == i
      {
        assert i <= UInt8Max;
      }
      return None;
    }
  }

  /** The inner loop of ReassignTargetIndices: every part of one file gets target index `i`. */
  method SetTargetIndex(file: IndexedZiPatchTargetFile, i: nat) returns (failure: Option<Error>)
    modifies file
    ensures file.relativePath == old(file.relativePath)
    ensures failure.None? <==> i <= UInt8Max || old(file.parts) == []
    ensures failure.Some? ==> failure == Some(ValueTooBig)
    ensures failure.None? ==> file.parts == Reindexed(old(file.parts), i)
  {
    var j := 0;
    while j < |file.parts|
      invariant 0 <= j <= |file.parts| == |old(file.parts)|
      invariant file.parts[..j] == Reindexed(old(file.parts), i)[..j] && file.parts[j..] == old(file.parts)[j..]
      invariant i > UInt8Max ==> j == 0
      invariant file.relativePath == old(file.relativePath)
    {
      var obj := WithTargetIndex(file.parts[j], i);
      if obj.Err? {
        return Some(obj.error);
      }
      file.parts := file.parts[j := obj.value];
      j := j + 1;
    }
    assert file.parts == file.parts[..j];
    return None;
  }

  /** The parts of file `i` with target index `i`, for an index that fits a byte, and unchanged otherwise. */
  function Reindexed(parts: seq<Locator>, i: int): (r: seq<Locator>)
    ensures |r| == |parts|
    ensures forall j :: 0 <= j < |parts| ==> r[j] == if 0 <= i <= UInt8Max then parts[j].(targetIndexByte := i) else parts[j]
  {
    if parts == [] || !(0 <= i <= UInt8Max) then parts
    else
      var rest := Reindexed(parts[1..], i);
      assert forall j :: 1 <= j < |parts| ==> parts[j] == parts[1..][j - 1];
      [parts[0].(targetIndexByte := i)] + rest
  }

  /** Renumbering changes only the target index: every part keeps its range, source and flags, so the tiling stays. */
  lemma ReindexedKeepsParts(parts: seq<Locator>, i: int)
    requires 0 <= i <= UInt8Max
    ensures forall j :: 0 <= j < |parts| ==> TargetIndex(Reindexed(parts, i)[j]) == i
    ensures forall j :: 0 <= j < |parts| ==> Reindexed(parts, i)[j].(targetIndexByte := parts[j].targetIndexByte) == parts[j]
    ensures forall from :: Chain(parts, from) ==> Chain(Reindexed(parts, i), from)
  {
    forall from | Chain(parts, from)
      ensures Chain(Reindexed(parts, i), from)
    {
      ReindexedChain(parts, i, from);
    }
  }

  lemma {:induction false} ReindexedChain(parts: seq<Locator>, i: int, from: int)
    requires 0 <= i <= UInt8Max && Chain(parts, from)
    ensures Chain(Reindexed(parts, i), from)
    decreases |parts|
  {
    if parts != [] {
      var r := Reindexed(parts, i);
      assert r[1..] == Reindexed(parts[1..], i);
      ReindexedChain(parts[1..], i, TargetEnd(parts[0]));
      assert TargetEnd(r[0]) == TargetEnd(parts[0]);
    }
  }

  // ---- Version names ----

  /** VersionName: the last patch file's name without its first character and its last six (".patch"). */
  function VersionName(sourceFiles: seq<string>): (r: Result<string>)
    ensures r.Err? ==> (sourceFiles == [] && r.error == InvalidOperation)
                       || (sourceFiles != [] && |sourceFiles[|sourceFiles| - 1]| < 7 && r.error == ArgumentOutOfRange)
    ensures r.Ok? ==> sourceFiles != [] && |r.value| + 7 == |sourceFiles[|sourceFiles| - 1]|
  {
    if sourceFiles == [] then Err(InvalidOperation)
    else
      var last := sourceFiles[|sourceFiles| - 1];
      if |last| < 7 then Err(ArgumentOutOfRange) else Ok(last[1..|last| - 6])
  }

  /** A patch named with one leading letter and the ".patch" extension gives back the version between them. */
  lemma VersionNameOfPatch(sourceFiles: seq<string>, letter: char, version: string)
    requires sourceFiles != [] && sourceFiles[|sourceFiles| - 1] == [letter] + version + ".patch"
    ensures VersionName(sourceFiles) == Ok(version)
  {
    var last := [letter] + version + ".patch";
    assert last[1..|last| - 6] == version;
  }

  /** int.ToString() for the expansion number. */
  function IntText(n: int): string
  {
    if n < 0 then "-" + Decimal(-n) else Decimal(n)
  }

  /** VersionFileBase: ffxivboot for the boot repository, ffxivgame for the base game and sqpack/exN/exN otherwise. */
  function VersionFileBase(expacVersion: int): string
  {
    if expacVersion == ExpacVersionBoot then "ffxivboot"
    else if expacVersion == ExpacVersionBaseGame then "ffxivgame"
    else "sqpack/ex" + IntText(expacVersion) + "/ex" + IntText(expacVersion)
  }

  function VersionFileVer(expacVersion: int): string { VersionFileBase(expacVersion) + ".ver" }

  function VersionFileBck(expacVersion: int): string { VersionFileBase(expacVersion) + ".bck" }

  /** The repository an expansion number stands for. */
  function RepoOf(expacVersion: int): Repository.Repo
  {
    match expacVersion
    case -1 => Repository.Boot
    case 0 => Repository.Ffxiv
    case 1 => Repository.Ex1
    case 2 => Repository.Ex2
    case 3 => Repository.Ex3
    case 4 => Repository.Ex4
    case _ => Repository.Undefined(expacVersion)
  }

  /**
   * For the six repositories the index names the same version file and backup as the
   * repository does, written relative to the repository's top folder ("boot" or "game").
   */
  lemma VersionFilesAgree(expacVersion: int, isBck: bool)
    requires -1 <= expacVersion <= 4
    ensures var file := Repository.GetVerFile(RepoOf(expacVersion), [], isBck).value;
      Join(file[1..], '/') == VersionFile(expacVersion, isBck)
  {
    var ext := if isBck then ".bck" else ".ver";
    var file := Repository.GetVerFile(RepoOf(expacVersion), [], isBck).value;
    if expacVersion >= 1 {
      ExpansionFileAgrees(expacVersion, ext, file);
    } else {
      assert file[1..] == [file[1]];
    }
  }

  lemma ExpansionFileAgrees(n: int, ext: string, file: Repository.Path)
    requires 1 <= n <= 4
    requires file == ["game", "sqpack", Repository.VerFileStem(RepoOf(n))] + [Repository.VerFileStem(RepoOf(n)) + ext]
    ensures Join(file[1..], '/') == VersionFileBase(n) + ext
  {
    var ex := "ex" + [DigitChar(n)];
    assert IntText(n) == [DigitChar(n)];
    assert Repository.VerFileStem(RepoOf(n)) == ex by {
      if n == 1 { assert DigitChar(1) == '1'; }
      else if n == 2 { assert DigitChar(2) == '2'; }
      else if n == 3 { assert DigitChar(3) == '3'; }
      else { assert DigitChar(4) == '4'; }
    }
    assert file[1..] == ["sqpack", ex, ex + ext];
    var parts := ["sqpack", ex, ex + ext];
    assert parts[1..][1..] == [ex + ext];
    assert Join(parts[1..], '/') == ex + ['/'] + (ex + ext);
    assert Join(parts, '/') == "sqpack" + ['/'] + (ex + ['/'] + (ex + ext));
  }

  /** The version file, or with `isBck` its backup. */
  function VersionFile(expacVersion: int, isBck: bool): string
  {
    if isBck then VersionFileBck(expacVersion) else VersionFileVer(expacVersion)
  }

  /** The expansion number and the choice of backup, read back from a few characters of a version file name. */
  function ExpacOfVersionFile(name: string): (int, bool)
  {
    if |name| < 10 then (0, false)
    else
      var isBck := name[|name| - 3] == 'b';
      if |name| == 13 then (if name[5] == 'b' then ExpacVersionBoot else ExpacVersionBaseGame, isBck)
      else (name[9] as int - '0' as int, isBck)
  }

  lemma ExpacOfVersionFileName(expacVersion: int, isBck: bool)
    requires -1 <= expacVersion <= 4
    ensures ExpacOfVersionFile(VersionFile(expacVersion, isBck)) == (expacVersion, isBck)
  {
    var ext := if isBck then ".bck" else ".ver";
    var name := VersionFile(expacVersion, isBck);
    assert name == VersionFileBase(expacVersion) + ext;
    assert name[|name| - 3] == ext[1];
    if expacVersion >= 1 {
      assert IntText(expacVersion) == [DigitChar(expacVersion)];
      assert name[9] == DigitChar(expacVersion);
    }
  }

  /** The index names a different version file for each repository, and the backup is never the file itself. */
  lemma VersionFilesDistinct(a: int, b: int, bckA: bool, bckB: bool)
    requires -1 <= a <= 4 && -1 <= b <= 4
    ensures VersionFile(a, bckA) == VersionFile(b, bckB) <==> a == b && bckA == bckB
  {
    ExpacOfVersionFileName(a, bckA);
    ExpacOfVersionFileName(b, bckB);
  }
}
