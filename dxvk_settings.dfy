/**
 * The DXVK settings of the Unix compatibility layer: the release each DXVK version downloads,
 * the HUD environment variables, and the check of a custom HUD string against the two regular
 * expressions that guard it. The directories the settings create and the paths they combine
 * are not modelled.
 */
module DxvkSettings {
  import opened Wrappers
  import opened Strings

  /** The DXVK versions by name; `Unnamed` is any other value of the enum. */
  datatype DxvkVersion = V1_10_1 | V1_10_2 | V1_10_3 | V2_0 | Unnamed(code: int)

  /** The HUD types by name; `UnnamedHud` is any other value of the enum. */
  datatype DxvkHudType = HudNone | Fps | Custom | Full | MangoHud | MangoHudCustom | MangoHudFull | UnnamedHud(code: int)

  // ---- The release of a version ----

  /** The release a version downloads; any other value throws. */
  function Release(version: DxvkVersion): Result<string>
  {
    match version
    case V1_10_1 => Ok("1.10.1")
    case V1_10_2 => Ok("1.10.2")
    case V1_10_3 => Ok("1.10.3")
    case V2_0 => Ok("2.0")
    case Unnamed(_) => Err(ArgumentOutOfRange)
  }

  const DownloadPrefix := "https://github.com/Sporif/dxvk-async/releases/download/"

  function FolderName(release: string): string
  {
    "dxvk-async-" + release
  }

  function DownloadUrl(release: string): string
  {
    DownloadPrefix + release + "/dxvk-async-" + release + ".tar.gz"
  }

  /** The named versions, and only they, have a release, and no two share one. */
  lemma {:induction false} ReleaseOfNamed(a: DxvkVersion, b: DxvkVersion)
    ensures Release(a).Ok? <==> !a.Unnamed?
    ensures Release(a).Ok? && Release(b).Ok? && Release(a).value == Release(b).value ==> a == b
  {
    if Release(a).Ok? && Release(b).Ok? && Release(a).value == Release(b).value {
      assert Release(a).value[|Release(a).value| - 1] == Release(b).value[|Release(b).value| - 1];
      assert |Release(a).value| == |Release(b).value|;
    }
  }

  /** The download is the release's archive under the folder's name, so distinct releases never share a folder. */
  lemma {:induction false} DownloadNamesFolder(r1: string, r2: string)
    ensures DownloadUrl(r1) == DownloadPrefix + r1 + "/" + FolderName(r1) + ".tar.gz"
    ensures FolderName(r1) == FolderName(r2) ==> r1 == r2
  {
    if FolderName(r1) == FolderName(r2) {
      assert r1 == FolderName(r1)[11..] && r2 == FolderName(r2)[11..];
    }
  }

  // ---- The custom HUD string ----

  /** A character of the class [0-9a-zA-Z,=.]. */
  predicate AllowedChar(c: char)
  {
    '0' <= c <= '9' || 'a' <= c <= 'z' || 'A' <= c <= 'Z' || c == ',' || c == '=' || c == '.'
  }

  predicate AllAllowed(s: string)
  {
    forall i :: 0 <= i < |s| ==> AllowedChar(s[i])
  }

  predicate IsDigit(c: char)
  {
    '0' <= c <= '9'
  }

  predicate AllDigits(s: string)
  {
    forall i :: 0 <= i < |s| ==> IsDigit(s[i])
  }

  /** The words of the HUD word list. */
  const HudWords: seq<string> := ["devinfo", "fps", "frametimes", "submissions", "drawcalls", "pipelines",
    "descriptors", "memory", "gpuload", "version", "api", "cs", "compiler", "samplers"]

  /** The length of the run of digits `s` starts with. */
  function DigitRun(s: string): (n: nat)
    ensures n <= |s| && AllDigits(s[..n]) && (n < |s| ==> !IsDigit(s[n]))
  {
    if s != [] && IsDigit(s[0]) then
      var n := 1 + DigitRun(s[1..]);
      assert forall i :: 1 <= i < n ==> s[..n][i] == s[1..][..n - 1][i - 1];
      n
    else 0
  }

  /**
   * `(?:[0-9])*(?:.(?:[0-9])+)?` as written: digits, then optionally any one character but a
   * line feed followed by at least one digit.
   */
  predicate ScaleValue(v: string)
  {
    var n := DigitRun(v);
    n == |v| || (v[n] != '\n' && n + 1 < |v| && AllDigits(v[n + 1..]))
  }

  /** The same pattern read as the regular expression: some split of `v` into digits, one character, digits. */
  ghost predicate ScaleValueSplit(v: string)
  {
    exists n :: 0 <= n <= |v| && AllDigits(v[..n]) && (n == |v| || (v[n] != '\n' && n + 1 < |v| && AllDigits(v[n + 1..])))
  }

  /** The first non-digit is the only place the wildcard can match, so the two readings agree. */
  lemma {:induction false} ScaleValueIsRegex(v: string)
    ensures ScaleValue(v) <==> ScaleValueSplit(v)
  {
    var k := DigitRun(v);
    if ScaleValueSplit(v) {
      var n :| 0 <= n <= |v| && AllDigits(v[..n]) && (n == |v| || (v[n] != '\n' && n + 1 < |v| && AllDigits(v[n + 1..])));
      assert k < |v| ==> n == k;
    }
    if ScaleValue(v) {
      assert AllDigits(v[..k]);
    }
  }

  /** One item of the word list as written: a word, or "scale=" and a scale value. */
  predicate HudWordBody(t: string)
  {
    t in HudWords || (|t| >= 6 && t[..6] == "scale=" && ScaleValue(t[6..]))
  }

  /**
   * `^X$` in .NET without the multiline option: `$` matches at the end or just before a final
   * line feed, so the pattern X may match the whole string or all of it but a final "\n".
   */
  predicate AnchoredCharsMatch(s: string)
  {
    (|s| > 0 && AllAllowed(s)) || (|s| > 1 && s[|s| - 1] == '\n' && AllAllowed(s[..|s| - 1]))
  }

  predicate AnchoredWordMatch(t: string)
  {
    HudWordBody(t) || (|t| > 0 && t[|t| - 1] == '\n' && HudWordBody(t[..|t| - 1]))
  }

  /** CheckDxvkHudString as written; `None` is a null string. */
  function CheckDxvkHudString(customHud: Option<string>): bool
  {
    match customHud
    case None => false
    case Some(s) =>
      if IsBlank(s) then false
      else if s == "1" then true
      else if !AnchoredCharsMatch(s) then false
      else forall t :: t in Split(s, ',') ==> AnchoredWordMatch(t)
  }

  // ---- The check as evidently intended ----

  /** `(?:[0-9])*(?:\.(?:[0-9])+)?`: digits, then optionally a point and at least one digit. */
  predicate IntendedScaleValue(v: string)
  {
    var n := DigitRun(v);
    n == |v| || (v[n] == '.' && n + 1 < |v| && AllDigits(v[n + 1..]))
  }

  /** One item of the HUD list: a word of the list, or "scale=" and a decimal number. */
  predicate HudItem(t: string)
  {
    t in HudWords || (|t| >= 6 && t[..6] == "scale=" && IntendedScaleValue(t[6..]))
  }

  /** Every string of the list is a HUD item, checked from the front. */
  predicate AllItems(ts: seq<string>)
    decreases |ts|
  {
    |ts| == 0 || (HudItem(ts[0]) && AllItems(ts[1..]))
  }

  /** Checking from the front is checking at every index. */
  lemma {:induction false} AllItemsIndex(ts: seq<string>)
    ensures AllItems(ts) <==> forall i :: 0 <= i < |ts| ==> HudItem(ts[i])
    decreases |ts|
  {
    if |ts| > 0 {
      AllItemsIndex(ts[1..]);
      assert forall i :: 1 <= i < |ts| ==> ts[1..][i - 1] == ts[i];
    }
  }

  /** The check with the point escaped and the patterns anchored at the very end. */
  function CheckHudIntended(customHud: Option<string>): bool
  {
    match customHud
    case None => false
    case Some(s) =>
      if IsBlank(s) then false
      else if s == "1" then true
      else if !(|s| > 0 && AllAllowed(s)) then false
      else AllItems(Split(s, ','))
  }

  /** A non-empty run of lower-case letters. */
  predicate LowerWord(w: string)
  {
    |w| > 0 && forall i :: 0 <= i < |w| ==> 'a' <= w[i] <= 'z'
  }

  /** Every word of the list is a run of lower-case letters. */
  lemma HudWordsLower()
    ensures forall k :: 0 <= k < |HudWords| ==> LowerWord(HudWords[k])
  {
    forall k | 0 <= k < |HudWords|
      ensures LowerWord(HudWords[k])
    {
    }
  }

  /** An item is a non-empty run of allowed characters with no comma in it. */
  lemma {:induction false} ItemChars(t: string)
    requires HudItem(t)
    ensures |t| > 0 && AllAllowed(t) && ',' !in t && !IsWhiteSpace(t[0])
  {
    if t in HudWords {
      HudWordsLower();
    } else {
      var v := t[6..];
      var n := DigitRun(v);
      assert t == "scale=" + v;
      forall i | 0 <= i < |t|
        ensures AllowedChar(t[i]) && t[i] != ','
      {
        if i >= 6 {
          assert t[i] == v[i - 6];
          if i - 6 < n {
            assert v[..n][i - 6] == v[i - 6];
          } else if i - 6 > n {
            assert v[n + 1..][i - 6 - n - 1] == v[i - 6];
          }
        }
      }
    }
  }

  /** Joining allowed runs with commas gives an allowed run, starting where the first one starts. */
  lemma {:induction false} JoinAllowed(items: seq<string>)
    requires |items| >= 1 && forall i :: 0 <= i < |items| ==> |items[i]| > 0 && AllAllowed(items[i])
    ensures var s := Join(items, ',');
      |s| > 0 && AllAllowed(s) && s[0] == items[0][0]
    decreases |items|
  {
    if |items| > 1 {
      JoinAllowed(items[1..]);
      var s := Join(items, ',');
      var rest := Join(items[1..], ',');
      assert s == items[0] + [','] + rest;
      forall i | 0 <= i < |s|
        ensures AllowedChar(s[i])
      {
        if i > |items[0]| {
          assert s[i] == rest[i - |items[0]| - 1];
        }
      }
    }
  }

  /** Both checks accept "1". */
  lemma ChecksAcceptOne()
    ensures CheckHudIntended(Some("1")) && CheckDxvkHudString(Some("1"))
  {
    var s := "1";
    assert !IsWhiteSpace(s[0]);
  }

  /** A non-blank run of allowed characters. */
  predicate AllowedRun(s: string)
  {
    |s| > 0 && AllAllowed(s) && !IsBlank(s)
  }

  /** A comma-joined list of comma-free allowed runs is a non-blank run of allowed characters. */
  lemma {:induction false} JoinOfItems(items: seq<string>)
    requires |items| >= 1 && forall i :: 0 <= i < |items| ==> |items[i]| > 0 && AllAllowed(items[i])
    requires !IsWhiteSpace(items[0][0])
    ensures AllowedRun(Join(items, ','))
  {
    JoinAllowed(items);
  }

  /** The intended check accepts every string of that shape. */
  lemma {:induction false} IntendedAcceptsPieces(s: string)
    requires AllowedRun(s) && AllItems(Split(s, ','))
    ensures CheckHudIntended(Some(s))
  {
  }

  /** HUD items are non-empty comma-free allowed runs, the first not starting with white space. */
  lemma {:induction false} ItemsShape(items: seq<string>)
    requires |items| >= 1 && AllItems(items)
    ensures forall i :: 0 <= i < |items| ==> |items[i]| > 0 && AllAllowed(items[i]) && ',' !in items[i]
    ensures !IsWhiteSpace(items[0][0])
  {
    AllItemsIndex(items);
    forall i | 0 <= i < |items|
      ensures |items[i]| > 0 && AllAllowed(items[i]) && ',' !in items[i]
    {
      ItemChars(items[i]);
    }
    ItemChars(items[0]);
  }

  /** Splitting a comma-joined list of comma-free HUD items gives the items back. */
  lemma {:induction false} PiecesOfJoin(items: seq<string>)
    requires |items| >= 1 && forall i :: 0 <= i < |items| ==> ',' !in items[i]
    requires AllItems(items)
    ensures AllItems(Split(Join(items, ','), ','))
  {
    JoinSplit(items, ',');
  }

  /** A comma-joined list of HUD items is an allowed run whose pieces are the items. */
  lemma {:induction false} JoinedItems(items: seq<string>)
    requires |items| >= 1 && AllItems(items)
    ensures AllowedRun(Join(items, ',')) && AllItems(Split(Join(items, ','), ','))
  {
    ItemsShape(items);
    JoinOfItems(items);
    PiecesOfJoin(items);
  }

  /** The intended check accepts every comma-separated list of HUD items. */
  lemma {:induction false} IntendedAcceptsJoin(items: seq<string>)
    requires |items| >= 1 && AllItems(items)
    ensures CheckHudIntended(Some(Join(items, ',')))
  {
    JoinedItems(items);
    IntendedAcceptsPieces(Join(items, ','));
  }

  /** The intended check accepts "1" and exactly the comma-separated lists of HUD items. */
  lemma {:induction false} IntendedAcceptsLists(s: string)
    ensures CheckHudIntended(Some(s)) <==>
      s == "1" || exists items :: |items| >= 1 && AllItems(items) && Join(items, ',') == s
  {
    if CheckHudIntended(Some(s)) && s != "1" {
      SplitJoin(s, ',');
    }
    if s == "1" {
      ChecksAcceptOne();
    }
    if exists items :: |items| >= 1 && AllItems(items) && Join(items, ',') == s {
      var items :| |items| >= 1 && AllItems(items) && Join(items, ',') == s;
      IntendedAcceptsJoin(items);
    }
  }

  /** The written check accepts everything the intended one does. */
  lemma {:induction false} AsWrittenAcceptsIntended(customHud: Option<string>)
    ensures CheckHudIntended(customHud) ==> CheckDxvkHudString(customHud)
  {
    if customHud.Some? && CheckHudIntended(customHud) && customHud.value != "1" {
      var s := customHud.value;
      var pieces := Split(s, ',');
      AllItemsIndex(pieces);
      forall t | t in pieces
        ensures AnchoredWordMatch(t)
      {
        var i :| 0 <= i < |pieces| && pieces[i] == t;
        if t !in HudWords {
          var v := t[6..];
          var n := DigitRun(v);
          assert n < |v| ==> v[n] != '\n';
        }
      }
    }
  }

  /** The unescaped point lets any character stand between the digits of a scale. */
  lemma AsWrittenAcceptsAnySeparator()
    ensures CheckDxvkHudString(Some("scale=1a2"))
    ensures !CheckHudIntended(Some("scale=1a2"))
  {
    var s := "scale=1a2";
    assert ',' !in s;
    assert Split(s, ',') == [s];
    assert s !in HudWords;
    var v := s[6..];
    assert v == "1a2";
    assert DigitRun(v) == 1 by {
      assert DigitRun(v[1..]) == 0;
    }
    assert v[2..] == "2";
    assert ScaleValue(v) && !IntendedScaleValue(v);
    assert AnchoredWordMatch(s);
    assert !HudItem(s);
    assert s in Split(s, ',');
  }

  /** `$` matches before a final line feed, so a HUD string may end in one. */
  lemma AsWrittenAcceptsFinalNewline()
    ensures CheckDxvkHudString(Some("fps\n"))
    ensures !CheckHudIntended(Some("fps\n"))
  {
    var s := "fps\n";
    assert s[|s| - 1] == '\n' && s[..|s| - 1] == "fps";
    assert !IsWhiteSpace(s[0]);
    assert ',' !in s;
    assert Split(s, ',') == [s];
    assert AnchoredCharsMatch(s);
    assert AnchoredWordMatch(s) by {
      assert HudWordBody("fps") by { assert HudWords[1] == "fps"; }
    }
    assert !AllowedChar(s[3]);
  }

  // ---- The HUD environment variables ----

  /** The HUD string used when a custom one fails the check. */
  const DefaultCustomHud := "fps,frametimes,gpuload,version"

  /** Joining a list of two or more pieces puts the separator after the first. */
  lemma {:induction false} JoinFirst(first: string, rest: seq<string>, sep: char)
    requires |rest| >= 1
    ensures Join([first] + rest, sep) == first + [sep] + Join(rest, sep)
  {
    assert ([first] + rest)[1..] == rest;
  }

  lemma JoinLastTwo()
    ensures Join(["gpuload", "version"], ',') == "gpuload,version"
  {
    JoinFirst("gpuload", ["version"], ',');
    assert ["gpuload"] + ["version"] == ["gpuload", "version"];
  }

  lemma JoinLastThree()
    ensures Join(["frametimes", "gpuload", "version"], ',') == "frametimes,gpuload,version"
  {
    JoinFirst("frametimes", ["gpuload", "version"], ',');
    assert ["frametimes"] + ["gpuload", "version"] == ["frametimes", "gpuload", "version"];
    JoinLastTwo();
  }

  lemma DefaultLiteral()
    ensures "fps" + [','] + "frametimes,gpuload,version" == DefaultCustomHud
  {
  }

  /** The default list, joined with commas, is the default string. */
  lemma JoinDefault()
    ensures Join(["fps", "frametimes", "gpuload", "version"], ',') == DefaultCustomHud
  {
    JoinFirst("fps", ["frametimes", "gpuload", "version"], ',');
    assert ["fps"] + ["frametimes", "gpuload", "version"] == ["fps", "frametimes", "gpuload", "version"];
    JoinLastThree();
    DefaultLiteral();
  }

  /** Each of the four default words is a word of the list. */
  lemma DefaultItems()
    ensures AllItems(["fps", "frametimes", "gpuload", "version"])
  {
    var items := ["fps", "frametimes", "gpuload", "version"];
    assert HudItem(items[0]) by { assert HudWords[1] == items[0]; }
    assert HudItem(items[1]) by { assert HudWords[2] == items[1]; }
    assert HudItem(items[2]) by { assert HudWords[8] == items[2]; }
    assert HudItem(items[3]) by { assert HudWords[9] == items[3]; }
    AllItemsIndex(items);
  }

  /** The default custom HUD string passes the check. */
  lemma DefaultCustomHudPasses()
    ensures CheckHudIntended(Some(DefaultCustomHud))
  {
    var items := ["fps", "frametimes", "gpuload", "version"];
    DefaultItems();
    IntendedAcceptsJoin(items);
    JoinDefault();
  }

  /** No file of the list exists. */
  predicate NoneExists(files: seq<string>, existing: set<string>)
  {
    forall j :: 0 <= j < |files| ==> files[j] !in existing
  }

  /** The first configuration file of the candidates that exists. */
  function FirstExisting(candidates: seq<string>, existing: set<string>): (r: Option<string>)
    ensures r.Some? ==> r.value in candidates && r.value in existing
    ensures r.None? ==> forall c :: c in candidates ==> c !in existing
  {
    if candidates == [] then None
    else if candidates[0] in existing then Some(candidates[0])
    else FirstExisting(candidates[1..], existing)
  }

  /** The file found is the first candidate that exists: every earlier one is missing. */
  lemma {:induction false} FirstExistingIsFirst(candidates: seq<string>, existing: set<string>)
    ensures var r := FirstExisting(candidates, existing);
      r.Some? ==> exists k :: 0 <= k < |candidates| && candidates[k] == r.value && NoneExists(candidates[..k], existing)
    decreases |candidates|
  {
    var r := FirstExisting(candidates, existing);
    if r.Some? {
      if candidates[0] in existing {
        assert candidates[0] == r.value && NoneExists(candidates[..0], existing);
      } else {
        var rest := candidates[1..];
        FirstExistingIsFirst(rest, existing);
        var k :| 0 <= k < |rest| && rest[k] == r.value && NoneExists(rest[..k], existing);
        assert candidates[..k + 1] == [candidates[0]] + rest[..k];
        assert candidates[k + 1] == r.value && NoneExists(candidates[..k + 1], existing);
      }
    }
  }

  /**
   * The HUD variables the settings add, in order. `custom` is the custom HUD string,
   * `mangoConfig` the configuration file given, `candidates` the three places searched when
   * none is given, and `existing` the files that exist.
   */
  function HudVars(hud: DxvkHudType, custom: Option<string>, mangoConfig: Option<string>,
                   candidates: seq<string>, existing: set<string>): Result<seq<(string, string)>>
  {
    match hud
    case Fps => Ok([("DXVK_HUD", "fps"), ("MANGOHUD", "0")])
    case Custom =>
      var value := if CheckHudIntended(custom) then custom.value else DefaultCustomHud;
      Ok([("DXVK_HUD", value), ("MANGOHUD", "0")])
    case Full => Ok([("DXVK_HUD", "full"), ("MANGOHUD", "0")])
    case MangoHud => Ok([("DXVK_HUD", "0"), ("MANGOHUD", "1"), ("MANGOHUD_CONFIG", "")])
    case MangoHudCustom =>
      var config := if mangoConfig.None? then FirstExisting(candidates, existing) else mangoConfig;
      if config.Some? && config.value in existing then
        Ok([("DXVK_HUD", "0"), ("MANGOHUD", "1"), ("MANGOHUD_CONFIGFILE", config.value)])
      else
        Ok([("DXVK_HUD", "0"), ("MANGOHUD", "1"), ("MANGOHUD_CONFIG", "")])
    case MangoHudFull => Ok([("DXVK_HUD", "0"), ("MANGOHUD", "1"), ("MANGOHUD_CONFIG", "full")])
    case HudNone => Ok([])
    case UnnamedHud(_) => Err(ArgumentOutOfRange)
  }

  /**
   * Every named HUD type sets DXVK_HUD first unless it is none; a custom HUD string that reaches
   * DXVK_HUD passes the check; MangoHud is on exactly for the three MangoHud types.
   */
  lemma {:induction false} HudVarsRules(hud: DxvkHudType, custom: Option<string>, mangoConfig: Option<string>,
                     candidates: seq<string>, existing: set<string>)
    ensures var r := HudVars(hud, custom, mangoConfig, candidates, existing);
      && (r.Ok? <==> !hud.UnnamedHud?)
      && (r.Ok? && hud != HudNone ==>
            (|r.value| >= 2 && r.value[0].0 == "DXVK_HUD" && r.value[1].0 == "MANGOHUD"
             && (r.value[1].1 == "1" <==> hud in {MangoHud, MangoHudCustom, MangoHudFull})))
      && (hud == Custom ==> CheckHudIntended(Some(r.value[0].1)))
      && (hud == MangoHudCustom && r.value[2].0 == "MANGOHUD_CONFIGFILE" ==> r.value[2].1 in existing)
  {
    if hud == Custom {
      DefaultCustomHudPasses();
    }
  }

  /** The settings a launch is given. */
  datatype Settings = Settings(enabled: bool, downloadUrl: string, folderName: string, hudVars: seq<(string, string)>)

  /** The constructor, without the directories it creates and the path-valued variables. */
  function NewSettings(hud: DxvkHudType, version: DxvkVersion, enabled: bool, custom: Option<string>,
                       mangoConfig: Option<string>, candidates: seq<string>, existing: set<string>): Result<Settings>
  {
    var release :- Release(version);
    var vars :- HudVars(hud, custom, mangoConfig, candidates, existing);
    Ok(Settings(enabled, DownloadUrl(release), FolderName(release), vars))
  }

  /** The constructor throws exactly for an unnamed version or HUD type, and downloads the version's release. */
  lemma {:induction false} NewSettingsRules(hud: DxvkHudType, version: DxvkVersion, enabled: bool, custom: Option<string>,
                         mangoConfig: Option<string>, candidates: seq<string>, existing: set<string>)
    ensures var r := NewSettings(hud, version, enabled, custom, mangoConfig, candidates, existing);
      && (r.Ok? <==> !version.Unnamed? && !hud.UnnamedHud?)
      && (r.Ok? ==>
            (r.value.folderName == FolderName(Release(version).value)
             && r.value.downloadUrl == DownloadPrefix + Release(version).value + "/" + r.value.folderName + ".tar.gz"))
  {
    ReleaseOfNamed(version, version);
    HudVarsRules(hud, custom, mangoConfig, candidates, existing);
    if Release(version).Ok? {
      DownloadNamesFolder(Release(version).value, Release(version).value);
    }
  }
}
