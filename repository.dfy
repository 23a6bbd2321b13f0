/**
 * The game's repositories (boot, the base game and the expansions), where each keeps its
 * version file, and the reading and writing of those files. The file system is a value: a
 * map from paths to text, plus the set of directories that exist.
 */
module Repository {
  import opened Wrappers
  import opened Strings

  /** The enum; a value cast from an integer outside the six names is `Undefined`. */
  datatype Repo = Boot | Ffxiv | Ex1 | Ex2 | Ex3 | Ex4 | Undefined(code: int)

  /** A path as its components below the root; the separator and normalisation are not modelled. */
  type Path = seq<string>

  datatype FileSystem = FileSystem(files: map<Path, string>, dirs: set<Path>)

  /** The version of an unpatched repository (Constants.BASE_GAME_VERSION). */
  const BaseGameVersion: string := "2012.01.01.0000.0000"

  predicate Defined(repo: Repo)
  {
    !repo.Undefined?
  }

  /** GetRepoPath: the repository's folder under the game folder. */
  function GetRepoPath(repo: Repo, gamePath: Path): (r: Result<Path>)
    ensures r.Ok? <==> Defined(repo)
    ensures r.Err? ==> r.error == ArgumentOutOfRange
    ensures r.Ok? ==> |r.value| > |gamePath| && r.value[..|gamePath|] == gamePath
  {
    match repo
    case Boot => Ok(gamePath + ["boot"])
    case Ffxiv => Ok(gamePath + ["game"])
    case Ex1 => Ok(gamePath + ["game", "sqpack", "ex1"])
    case Ex2 => Ok(gamePath + ["game", "sqpack", "ex2"])
    case Ex3 => Ok(gamePath + ["game", "sqpack", "ex3"])
    case Ex4 => Ok(gamePath + ["game", "sqpack", "ex4"])
    case Undefined(_) => Err(ArgumentOutOfRange)
  }

  /** The version file's name without its extension. */
  function VerFileStem(repo: Repo): string
    requires Defined(repo)
  {
    match repo
    case Boot => "ffxivboot"
    case Ffxiv => "ffxivgame"
    case Ex1 => "ex1"
    case Ex2 => "ex2"
    case Ex3 => "ex3"
    case Ex4 => "ex4"
  }

  /** The version file's name: the stem and ".bck" for the backup, ".ver" otherwise. */
  function VerFileName(repo: Repo, isBck: bool): string
    requires Defined(repo)
  {
    VerFileStem(repo) + (if isBck then ".bck" else ".ver")
  }

  /** GetVerFile: the version file, or with `isBck` its backup, in the repository's folder. */
  function GetVerFile(repo: Repo, gamePath: Path, isBck: bool): (r: Result<Path>)
    ensures r.Ok? <==> Defined(repo)
    ensures r.Err? ==> r.error == ArgumentOutOfRange
    ensures r.Ok? ==> r.value == GetRepoPath(repo, gamePath).value + [VerFileName(repo, isBck)]
  {
    var dir :- GetRepoPath(repo, gamePath);
    Ok(dir + [VerFileName(repo, isBck)])
  }

  /** Which repository's file, and whether the backup, a version file name is, read from a few of its characters. */
  function RepoOfFile(name: string): Option<(Repo, bool)>
  {
    if |name| < 4 then None
    else
      var isBck := name[|name| - 3] == 'b';
      if |name| == 13 then Some((if name[5] == 'b' then Boot else Ffxiv, isBck))
      else if name[2] == '1' then Some((Ex1, isBck))
      else if name[2] == '2' then Some((Ex2, isBck))
      else if name[2] == '3' then Some((Ex3, isBck))
      else Some((Ex4, isBck))
  }

  /** The file name tells the repository and the choice of backup back. */
  lemma RepoOfFileName(repo: Repo, isBck: bool)
    requires Defined(repo)
    ensures RepoOfFile(VerFileName(repo, isBck)) == Some((repo, isBck))
  {
    var name := VerFileName(repo, isBck);
    var stem := VerFileStem(repo);
    assert name[|name| - 3] == (if isBck then 'b' else 'v');
    assert name[2] == stem[2] && name[5] == (if |stem| == 9 then stem[5] else name[5]);
  }

  /** The six repositories name six different version files, and a backup is never the file it backs up. */
  lemma VerFilesDistinct(a: Repo, b: Repo, gamePath: Path, bckA: bool, bckB: bool)
    requires Defined(a) && Defined(b)
    ensures GetVerFile(a, gamePath, bckA) == GetVerFile(b, gamePath, bckB) <==> a == b && bckA == bckB
  {
    var fa, fb := GetVerFile(a, gamePath, bckA).value, GetVerFile(b, gamePath, bckB).value;
    if fa == fb {
      assert fa[|fa| - 1] == VerFileName(a, bckA) && fb[|fb| - 1] == VerFileName(b, bckB);
      RepoOfFileName(a, bckA);
      RepoOfFileName(b, bckB);
    }
  }

  /** GetVer: the text of the version file, or the base version when it is missing or blank. */
  function GetVer(fs: FileSystem, repo: Repo, gamePath: Path, isBck: bool): (r: Result<string>)
    ensures r.Ok? <==> Defined(repo)
    ensures r.Ok? ==> !IsBlank(r.value)
  {
    var file :- GetVerFile(repo, gamePath, isBck);
    assert !IsWhiteSpace(BaseGameVersion[0]);
    if file !in fs.files then Ok(BaseGameVersion)
    else
      var ver := fs.files[file];
      Ok(if IsBlank(ver) then BaseGameVersion else ver)
  }

  /** Encoding.ASCII.GetBytes read back as text: each character above U+007F becomes '?'. */
  function AsciiText(s: string): (t: string)
    ensures |t| == |s|
    ensures forall i :: 0 <= i < |s| ==> t[i] == (if s[i] as int < 0x80 then s[i] else '?')
  {
    if s == [] then [] else [if s[0] as int < 0x80 then s[0] else '?'] + AsciiText(s[1..])
  }

  /** The folder a path is in. */
  function Parent(p: Path): Path
  {
    if p == [] then [] else p[..|p| - 1]
  }

  /** Directory.Create: the folder and every folder above it. */
  function WithDirectory(dirs: set<Path>, dir: Path): (r: set<Path>)
    ensures dir in r && dirs <= r
    ensures forall d :: d in r ==> d in dirs || (|d| <= |dir| && d == dir[..|d|])
  {
    assert dir[..|dir|] == dir;
    dirs + set i | 0 <= i <= |dir| :: dir[..i]
  }

  /** SetVer: creates the folder when it is missing and replaces the file by the ASCII text of the version. */
  function SetVer(fs: FileSystem, repo: Repo, gamePath: Path, newVer: string, isBck: bool): (r: Result<FileSystem>)
    ensures r.Ok? <==> Defined(repo)
    ensures r.Ok? ==> var file := GetVerFile(repo, gamePath, isBck).value;
      && r.value.files == fs.files[file := AsciiText(newVer)]
      && Parent(file) in r.value.dirs && fs.dirs <= r.value.dirs
  {
    var file :- GetVerFile(repo, gamePath, isBck);
    var dirs := if Parent(file) in fs.dirs then fs.dirs else WithDirectory(fs.dirs, Parent(file));
    Ok(FileSystem(fs.files[file := AsciiText(newVer)], dirs))
  }

  /** Text in ASCII is written as it is. */
  lemma AsciiUnchanged(s: string)
    requires forall i :: 0 <= i < |s| ==> s[i] as int < 0x80
    ensures AsciiText(s) == s
  {
  }

  /** Reading back after SetVer gives the ASCII text of the version written, or the base version when that text is blank. */
  lemma SetThenGet(fs: FileSystem, repo: Repo, gamePath: Path, newVer: string, isBck: bool)
    requires Defined(repo)
    ensures var t := AsciiText(newVer);
      GetVer(SetVer(fs, repo, gamePath, newVer, isBck).value, repo, gamePath, isBck)
        == Ok(if IsBlank(t) then BaseGameVersion else t)
  {
  }

  /** An ASCII version that is not blank reads back as itself. */
  lemma SetThenGetAscii(fs: FileSystem, repo: Repo, gamePath: Path, newVer: string, isBck: bool)
    requires Defined(repo) && !IsBlank(newVer)
    requires forall i :: 0 <= i < |newVer| ==> newVer[i] as int < 0x80
    ensures GetVer(SetVer(fs, repo, gamePath, newVer, isBck).value, repo, gamePath, isBck) == Ok(newVer)
  {
    AsciiUnchanged(newVer);
    SetThenGet(fs, repo, gamePath, newVer, isBck);
  }

  /** SetVer changes no other version file: every other repository, and the other of the file and its backup, read as before. */
  lemma SetKeepsOthers(fs: FileSystem, repo: Repo, other: Repo, gamePath: Path, newVer: string, isBck: bool, otherBck: bool)
    requires Defined(repo)
    requires other != repo || otherBck != isBck
    ensures GetVer(SetVer(fs, repo, gamePath, newVer, isBck).value, other, gamePath, otherBck)
         == GetVer(fs, other, gamePath, otherBck)
  {
    if Defined(other) {
      VerFilesDistinct(repo, other, gamePath, isBck, otherBck);
    }
  }

  /** IsBaseVer: the repository's version, not its backup's, is the base version. */
  function IsBaseVer(fs: FileSystem, repo: Repo, gamePath: Path): (r: Result<bool>)
    ensures r.Ok? <==> Defined(repo)
  {
    var ver :- GetVer(fs, repo, gamePath, false);
    Ok(ver == BaseGameVersion)
  }

  /** A repository is at the base version exactly when its version file is missing, blank or holds the base version. */
  lemma IsBaseVerFile(fs: FileSystem, repo: Repo, gamePath: Path)
    requires Defined(repo)
    ensures var file := GetVerFile(repo, gamePath, false).value;
      IsBaseVer(fs, repo, gamePath) == Ok(
        || file !in fs.files
        || IsBlank(fs.files[file])
        || fs.files[file] == BaseGameVersion)
  {
  }

  /** A fresh installation, with no version files, is at the base version in every repository. */
  lemma EmptyIsBase(repo: Repo, gamePath: Path)
    requires Defined(repo)
    ensures IsBaseVer(FileSystem(map[], {}), repo, gamePath) == Ok(true)
  {
  }
}
