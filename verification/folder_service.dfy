/** The language-server folder resolver: which `languageServer[.<version>]`
    folder under the extension's storage directory to use, or which new
    folder name a download should create.

    Collaborators become inputs: the storage directory's sub-directory list,
    the two boolean settings, the minimum-version text from the extension's
    manifest, the download channel's rule, and the outcome of the latest-
    package lookup (`None` when it failed or found nothing). */
module LanguageServerFolders {
  import opened Wrappers
  import opened Text
  import opened SemVer

  /** The folder-name prefix shared by every language-server folder. */
  const Prefix: string := "languageServer"

  /** A folder and the version object its name gives. `loose` records the
      options the object was built with: `semver.parse(suffix, true)` builds a
      loose one, the `new semver.SemVer('0.0.0')` fallback a strict one, and
      `compare` parses a string argument with the object's own options. */
  datatype FolderVersionPair = FolderVersionPair(path: string, version: SemVer, loose: bool)

  /** The latest package found by the lookup: its version and the text it was parsed from. */
  datatype Package = Package(version: SemVer, raw: string)

  datatype Settings = Settings(autoUpdateLanguageServer: bool, downloadLanguageServer: bool)

  /** Why the resolver would throw instead of answering. */
  datatype Failure =
    | InvalidMinimumVersion(text: string)  // `compare` on a minimum version that does not parse
    | MissingServerVersion                 // `serverVersion!` with no folder and no package

  // ---------------------------------------------------------------------
  // Folder name -> version

  /** Every character of the prefix is one UTF-16 code unit, so
      `Prefix.length` is `|Prefix|`. */
  lemma PrefixIsBmp()
    ensures forall i :: 0 <= i < |Prefix| ==> IsBmp(Prefix[i])
    ensures Utf16Length(Prefix) == |Prefix|
  {
    forall i | 0 <= i < |Prefix|
      ensures IsBmp(Prefix[i])
    {
    }
    BmpLength(Prefix);
  }

  /** `dirName.substring(Prefix.length + 1)`, in UTF-16 code units: the prefix
      and one more code unit are dropped, whatever they are. `None` when that
      unit is the first half of a surrogate pair. */
  function FolderSuffix(dirName: string): Option<string>
  {
    DropCodeUnits(dirName, |Prefix| + 1)
  }

  /** What `semver.parse(suffix, true)` gives, when line 90 calls it and it
      succeeds: an empty suffix is never parsed, and one that starts with a lone
      surrogate never parses. */
  function SuffixVersion(dirName: string): Option<SemVer>
  {
    match FolderSuffix(dirName)
    case Some(suffix) => if |suffix| == 0 then None else Parse(suffix, true)
    case None => None
  }

  /** `semver.parse(...) || new semver.SemVer('0.0.0')`. */
  function OrZero(parsed: Option<SemVer>): SemVer
  {
    match parsed
    case Some(v) => v
    case None => Zero
  }

  /** The version a folder name encodes; never fails. For a name that starts
      with the prefix: nothing or one character after the prefix, or a first
      character outside the Basic Multilingual Plane, gives `0.0.0`; otherwise
      the text after the prefix and that character is parsed loosely, with
      `0.0.0` when that fails. */
  function FolderVersion(dirName: string): (v: SemVer)
    ensures SuffixVersion(dirName).None? ==> v == Zero
    ensures SuffixVersion(dirName).Some? ==> v == SuffixVersion(dirName).value
    ensures StartsWith(dirName, Prefix) && (|dirName| <= |Prefix| + 1 || !IsBmp(dirName[|Prefix|])) ==>
      v == Zero
    ensures StartsWith(dirName, Prefix) && |dirName| > |Prefix| + 1 && IsBmp(dirName[|Prefix|]) ==>
      v == OrZero(Parse(dirName[|Prefix| + 1..], true))
  {
    if StartsWith(dirName, Prefix) then
      PrefixedFolderSuffix(dirName);
      OrZero(SuffixVersion(dirName))
    else
      OrZero(SuffixVersion(dirName))
  }

  /** For a name that starts with the prefix, as every discovered folder's
      does, the cut falls one character after the prefix, unless that
      character lies outside the Basic Multilingual Plane and the cut splits
      its surrogate pair. */
  lemma PrefixedFolderSuffix(dirName: string)
    requires StartsWith(dirName, Prefix)
    ensures |dirName| == |Prefix| ==> FolderSuffix(dirName) == Some([])
    ensures |dirName| > |Prefix| && IsBmp(dirName[|Prefix|]) ==> FolderSuffix(dirName) == Some(dirName[|Prefix| + 1..])
    ensures |dirName| > |Prefix| && !IsBmp(dirName[|Prefix|]) ==> FolderSuffix(dirName) == None
  {
    PrefixIsBmp();
    DropPrefixAndOne(dirName, Prefix);
  }

  /** The version of a name that starts with the prefix: `0.0.0` from the
      strict fallback when nothing or a split surrogate pair follows the
      prefix, otherwise what the text after the prefix and one separator
      character parses to loosely, or the fallback when that fails. */
  lemma PrefixedFolderVersion(dirName: string)
    requires StartsWith(dirName, Prefix)
    ensures |dirName| <= |Prefix| + 1 ==> SuffixVersion(dirName).None? && FolderVersion(dirName) == Zero
    ensures |dirName| > |Prefix| && !IsBmp(dirName[|Prefix|]) ==>
      SuffixVersion(dirName).None? && FolderVersion(dirName) == Zero
    ensures |dirName| > |Prefix| + 1 && IsBmp(dirName[|Prefix|]) ==>
      SuffixVersion(dirName) == Parse(dirName[|Prefix| + 1..], true)
  {
    PrefixedFolderSuffix(dirName);
  }

  /** The bare prefix, and the prefix followed by a lone separator, are the
      strict `0.0.0` fallback. */
  lemma BareFolderVersion(sep: char)
    ensures SuffixVersion(Prefix).None? && FolderVersion(Prefix) == Zero
    ensures SuffixVersion(Prefix + [sep]).None? && FolderVersion(Prefix + [sep]) == Zero
  {
    assert Prefix[..|Prefix|] == Prefix;
    PrefixedFolderVersion(Prefix);
    var name := Prefix + [sep];
    assert name[..|Prefix|] == Prefix;
    PrefixedFolderVersion(name);
  }

  /** A folder named `<prefix><sep><text>` carries the version `text` parses
      to, built loosely, for any separator in the Basic Multilingual Plane;
      with any other separator the cut splits a surrogate pair and the name
      gives the strict `0.0.0` fallback. */
  lemma FolderVersionOfName(sep: char, text: string, v: SemVer)
    requires Parse(text, true) == Some(v)
    ensures SuffixVersion(Prefix + [sep] + text) == if IsBmp(sep) then Some(v) else None
    ensures FolderVersion(Prefix + [sep] + text) == if IsBmp(sep) then v else Zero
  {
    ParseEmpty(true);
    var name := Prefix + [sep] + text;
    assert name[..|Prefix|] == Prefix;
    assert name[|Prefix|] == sep;
    assert name[|Prefix| + 1..] == text;
    PrefixedFolderVersion(name);
  }

  // ---------------------------------------------------------------------
  // Discovery

  predicate IsServerFolder(dir: string)
  {
    StartsWith(Basename(dir), Prefix)
  }

  /** The version a discovered path carries: that of its basename. */
  function PathVersion(dir: string): SemVer
  {
    FolderVersion(Basename(dir))
  }

  /** Whether that version was parsed, and so built with the loose option. */
  predicate PathLoose(dir: string)
  {
    SuffixVersion(Basename(dir)).Some?
  }

  /** The entries of `subDirs` that satisfy `keep`, in list order, each paired
      with `version` and `loose` of it. Discovery is this with the prefix test and
      `PathVersion`; stating the list laws for any `keep` and `version` keeps
      their proofs clear of the version parser. */
  function KeepPairs(subDirs: seq<string>, keep: string -> bool, version: string -> SemVer, loose: string -> bool): (dirs: seq<FolderVersionPair>)
    ensures |dirs| <= |subDirs|
    ensures forall i :: 0 <= i < |dirs| ==>
      keep(dirs[i].path) && dirs[i].version == version(dirs[i].path) && dirs[i].loose == loose(dirs[i].path)
  {
    if |subDirs| == 0 then []
    else
      var d := subDirs[0];
      (if keep(d) then [FolderVersionPair(d, version(d), loose(d))] else []) + KeepPairs(subDirs[1..], keep, version, loose)
  }

  lemma {:induction false} KeepPairsSound(subDirs: seq<string>, keep: string -> bool, version: string -> SemVer, loose: string -> bool)
    ensures forall i :: 0 <= i < |KeepPairs(subDirs, keep, version, loose)| ==> KeepPairs(subDirs, keep, version, loose)[i].path in subDirs
    decreases |subDirs|
  {
    if |subDirs| > 0 {
      KeepPairsSound(subDirs[1..], keep, version, loose);
      var d := subDirs[0];
      var e: seq<FolderVersionPair> := if keep(d) then [FolderVersionPair(d, version(d), loose(d))] else [];
      var rest := KeepPairs(subDirs[1..], keep, version, loose);
      var dirs := e + rest;
      forall i | 0 <= i < |dirs|
        ensures dirs[i].path in subDirs
      {
        if i >= |e| {
          assert dirs[i] == rest[i - |e|];
          assert rest[i - |e|].path in subDirs[1..];
        }
      }
    }
  }

  lemma {:induction false} KeepPairsComplete(subDirs: seq<string>, keep: string -> bool, version: string -> SemVer, loose: string -> bool, j: int)
    requires 0 <= j < |subDirs| && keep(subDirs[j])
    ensures exists i :: 0 <= i < |KeepPairs(subDirs, keep, version, loose)| && KeepPairs(subDirs, keep, version, loose)[i].path == subDirs[j]
    decreases |subDirs|
  {
    var d := subDirs[0];
    var e: seq<FolderVersionPair> := if keep(d) then [FolderVersionPair(d, version(d), loose(d))] else [];
    var rest := KeepPairs(subDirs[1..], keep, version, loose);
    var dirs := e + rest;
    assert KeepPairs(subDirs, keep, version, loose) == dirs;
    if j == 0 {
      assert dirs[0] == e[0];
    } else {
      assert subDirs[1..][j - 1] == subDirs[j];
      KeepPairsComplete(subDirs[1..], keep, version, loose, j - 1);
      var i :| 0 <= i < |rest| && rest[i].path == subDirs[j];
      assert dirs[|e| + i] == rest[i];
    }
  }

  lemma {:induction false} KeepPairsAppend(a: seq<string>, b: seq<string>, keep: string -> bool, version: string -> SemVer, loose: string -> bool)
    ensures KeepPairs(a + b, keep, version, loose) == KeepPairs(a, keep, version, loose) + KeepPairs(b, keep, version, loose)
    decreases |a|
  {
    if |a| == 0 {
      assert a + b == b;
    } else {
      var d := a[0];
      var e: seq<FolderVersionPair> := if keep(d) then [FolderVersionPair(d, version(d), loose(d))] else [];
      calc {
        KeepPairs(a + b, keep, version, loose);
        { assert (a + b)[0] == d; assert (a + b)[1..] == a[1..] + b; }
        e + KeepPairs(a[1..] + b, keep, version, loose);
        { KeepPairsAppend(a[1..], b, keep, version, loose); }
        e + (KeepPairs(a[1..], keep, version, loose) + KeepPairs(b, keep, version, loose));
        KeepPairs(a, keep, version, loose) + KeepPairs(b, keep, version, loose);
      }
    }
  }

  /** The sub-directories whose basename starts with the prefix, in list
      order, each paired with the version of its basename. */
  function Discover(subDirs: seq<string>): (dirs: seq<FolderVersionPair>)
    ensures |dirs| <= |subDirs|
    ensures forall i :: 0 <= i < |dirs| ==>
      IsServerFolder(dirs[i].path) && dirs[i].version == PathVersion(dirs[i].path)
      && dirs[i].loose == PathLoose(dirs[i].path)
  {
    KeepPairs(subDirs, IsServerFolder, PathVersion, PathLoose)
  }

  /** Every discovered folder is one of the listed sub-directories. */
  lemma DiscoverSound(subDirs: seq<string>)
    ensures forall i :: 0 <= i < |Discover(subDirs)| ==> Discover(subDirs)[i].path in subDirs
  {
    KeepPairsSound(subDirs, IsServerFolder, PathVersion, PathLoose);
  }

  /** Every listed sub-directory whose basename starts with the prefix is discovered. */
  lemma DiscoverComplete(subDirs: seq<string>, j: int)
    requires 0 <= j < |subDirs| && IsServerFolder(subDirs[j])
    ensures exists i :: 0 <= i < |Discover(subDirs)| && Discover(subDirs)[i].path == subDirs[j]
  {
    var dirs := KeepPairs(subDirs, IsServerFolder, PathVersion, PathLoose);
    KeepPairsComplete(subDirs, IsServerFolder, PathVersion, PathLoose, j);
    var i :| 0 <= i < |dirs| && dirs[i].path == subDirs[j];
    assert Discover(subDirs)[i].path == subDirs[j];
  }

  /** Discovery preserves list order: it distributes over concatenation. */
  lemma DiscoverAppend(a: seq<string>, b: seq<string>)
    ensures Discover(a + b) == Discover(a) + Discover(b)
  {
    KeepPairsAppend(a, b, IsServerFolder, PathVersion, PathLoose);
  }

  /** A single directory is kept exactly when its basename starts with the prefix. */
  lemma DiscoverOne(d: string)
    ensures IsServerFolder(d) ==> Discover([d]) == [FolderVersionPair(d, PathVersion(d), PathLoose(d))]
    ensures !IsServerFolder(d) ==> Discover([d]) == []
  {
    assert [d][1..] == [];
  }

  // ---------------------------------------------------------------------
  // Max selection

  /** `k` is where a stable ascending sort by version puts its last element:
      no version is higher than `dirs[k]`'s, and every later entry is lower. */
  ghost predicate IsLastMax(dirs: seq<FolderVersionPair>, k: int)
  {
    && 0 <= k < |dirs|
    && (forall j :: 0 <= j < |dirs| ==> LessEq(dirs[j].version, dirs[k].version))
    && (forall j :: k < j < |dirs| ==> Less(dirs[j].version, dirs[k].version))
  }

  /** Index of the last entry with the highest version. */
  function LastMaxIndex(dirs: seq<FolderVersionPair>): (k: nat)
    requires |dirs| > 0
    ensures IsLastMax(dirs, k)
  {
    if |dirs| == 1 then
      CompareZeroIsEquality(dirs[0].version, dirs[0].version);
      0
    else
      var n := |dirs| - 1;
      var init := dirs[..n];
      var b := LastMaxIndex(init);
      assert forall j :: 0 <= j < n ==> init[j] == dirs[j];
      if LessEq(dirs[b].version, dirs[n].version) then
        assert forall j :: 0 <= j < |dirs| ==> LessEq(dirs[j].version, dirs[n].version) by {
          forall j | 0 <= j < |dirs|
            ensures LessEq(dirs[j].version, dirs[n].version)
          {
            if j < n {
              LessEqTransitive(dirs[j].version, dirs[b].version, dirs[n].version);
            } else {
              CompareZeroIsEquality(dirs[n].version, dirs[n].version);
            }
          }
        }
        n
      else
        LessEqTotal(dirs[b].version, dirs[n].version);
        b
  }

  /** At most one index satisfies `IsLastMax`, so the choice is determined. */
  lemma LastMaxUnique(dirs: seq<FolderVersionPair>, k1: int, k2: int)
    requires IsLastMax(dirs, k1) && IsLastMax(dirs, k2)
    ensures k1 == k2
  {
    if k1 < k2 {
      CompareAntisymmetric(dirs[k2].version, dirs[k1].version);
    } else if k2 < k1 {
      CompareAntisymmetric(dirs[k1].version, dirs[k2].version);
    }
  }

  /** An entry appended after entries of no higher version is the one selected. */
  lemma LastMaxOfAppended(dirs: seq<FolderVersionPair>, e: FolderVersionPair)
    requires forall j :: 0 <= j < |dirs| ==> LessEq(dirs[j].version, e.version)
    ensures LastMaxIndex(dirs + [e]) == |dirs|
  {
    var all := dirs + [e];
    CompareZeroIsEquality(e.version, e.version);
    assert forall j :: 0 <= j < |dirs| ==> all[j] == dirs[j];
    assert IsLastMax(all, |dirs|);
    LastMaxUnique(all, |dirs|, LastMaxIndex(all));
  }

  /** The folder currently in use: the bare folder at `0.0.0` when downloading
      is disabled, otherwise the last highest-version discovered folder. */
  function CurrentDirectory(downloadLanguageServer: bool, subDirs: seq<string>): (r: Option<FolderVersionPair>)
    ensures !downloadLanguageServer ==> r == Some(FolderVersionPair(Prefix, Zero, false))
    ensures downloadLanguageServer ==> (r.None? <==> |Discover(subDirs)| == 0)
    ensures downloadLanguageServer && r.Some? ==>
      exists k :: IsLastMax(Discover(subDirs), k) && r.value == Discover(subDirs)[k]
  {
    if !downloadLanguageServer then Some(FolderVersionPair(Prefix, Zero, false))
    else
      var dirs := Discover(subDirs);
      if |dirs| == 0 then None else Some(dirs[LastMaxIndex(dirs)])
  }

  // ---------------------------------------------------------------------
  // Update policy

  /** Whether to look for a newer server. `rule` is the download channel's
      own decision, which the resolver delegates to when nothing forces one.
      The minimum version text is parsed with the current folder version's
      options: loosely for a parsed folder name, strictly for the fallback. */
  function ShouldLookForNewLanguageServer(
    settings: Settings,
    minimumVersion: string,
    currentFolder: Option<FolderVersionPair>,
    rule: Option<FolderVersionPair> -> bool
  ): (r: Result<bool, Failure>)
    // an existing folder is never replaced unless both settings are on
    ensures currentFolder.Some? && (!settings.autoUpdateLanguageServer || !settings.downloadLanguageServer) ==>
      r == Success(false)
    // with auto-update on, a missing folder forces a look
    ensures settings.autoUpdateLanguageServer && currentFolder.None? ==> r == Success(true)
    // with auto-update on, a folder below the minimum version forces a look
    ensures (settings.autoUpdateLanguageServer && settings.downloadLanguageServer && currentFolder.Some?
      && Parse(minimumVersion, currentFolder.value.loose).Some?
      && Less(currentFolder.value.version, Parse(minimumVersion, currentFolder.value.loose).value)) ==>
      r == Success(true)
    // the minimum version is only read when both settings are on and a folder exists
    ensures r.Failure? <==>
      settings.autoUpdateLanguageServer && settings.downloadLanguageServer && currentFolder.Some?
      && Parse(minimumVersion, currentFolder.value.loose).None?
    ensures r.Failure? ==> r.error == InvalidMinimumVersion(minimumVersion)
    // otherwise the channel rule decides
    ensures !settings.autoUpdateLanguageServer && currentFolder.None? ==> r == Success(rule(currentFolder))
    ensures (settings.autoUpdateLanguageServer && settings.downloadLanguageServer && currentFolder.Some?
      && Parse(minimumVersion, currentFolder.value.loose).Some?
      && LessEq(Parse(minimumVersion, currentFolder.value.loose).value, currentFolder.value.version)) ==>
      r == Success(rule(currentFolder))
  {
    if currentFolder.Some? && (!settings.autoUpdateLanguageServer || !settings.downloadLanguageServer) then
      Success(false)
    else if settings.autoUpdateLanguageServer && currentFolder.None? then
      Success(true)
    else if settings.autoUpdateLanguageServer then
      match Parse(minimumVersion, currentFolder.value.loose)
      case None => Failure(InvalidMinimumVersion(minimumVersion))
      case Some(minimum) =>
        LessEqTotal(currentFolder.value.version, minimum);
        CompareAntisymmetric(currentFolder.value.version, minimum);
        if Less(currentFolder.value.version, minimum) then Success(true)
        else Success(rule(currentFolder))
    else
      Success(rule(currentFolder))
  }

  // ---------------------------------------------------------------------
  // Folder name

  /** The name decision once the current folder, the update decision and the
      lookup outcome are known: keep the current folder's basename unless an
      update is wanted and the lookup found a strictly newer version, in which
      case name `languageServer.<raw version>`. With no current folder the
      lookup's answer is used whatever the decision, and the source crashes
      when the lookup produced nothing. */
  function SelectFolderName(
    currentFolder: Option<FolderVersionPair>,
    shouldLook: bool,
    latest: Option<Package>
  ): (r: Result<string, Failure>)
    ensures currentFolder.Some? && !shouldLook ==> r == Success(Basename(currentFolder.value.path))
    ensures (currentFolder.Some? && (latest.None? || LessEq(latest.value.version, currentFolder.value.version))) ==>
      r == Success(Basename(currentFolder.value.path))
    ensures (latest.Some? && (currentFolder.None? || (shouldLook && Less(currentFolder.value.version, latest.value.version)))) ==>
      r == Success(Prefix + "." + latest.value.raw)
    ensures r.Failure? <==> currentFolder.None? && latest.None?
    ensures r.Failure? ==> r.error == MissingServerVersion
  {
    NewerOrNot(currentFolder, latest);
    if currentFolder.Some? && !shouldLook then
      Success(Basename(currentFolder.value.path))
    else if currentFolder.Some? && (latest.None? || LessEq(latest.value.version, currentFolder.value.version)) then
      Success(Basename(currentFolder.value.path))
    else if latest.None? then
      Failure(MissingServerVersion)
    else
      Success(Prefix + "." + latest.value.raw)
  }

  /** A found version is either at most the current one or strictly newer. */
  lemma NewerOrNot(currentFolder: Option<FolderVersionPair>, latest: Option<Package>)
    ensures currentFolder.Some? && latest.Some? ==>
      (!LessEq(latest.value.version, currentFolder.value.version) <==> Less(currentFolder.value.version, latest.value.version))
  {
    if currentFolder.Some? && latest.Some? {
      LessEqTotal(latest.value.version, currentFolder.value.version);
    }
  }

  /** The whole resolution: find the current folder, decide whether to look
      for a newer server, then choose the name. It has only two possible
      answers, the current folder's basename or the name for the found
      version, and only two ways to fail. */
  function LanguageServerFolderName(
    settings: Settings,
    minimumVersion: string,
    subDirs: seq<string>,
    rule: Option<FolderVersionPair> -> bool,
    latest: Option<Package>
  ): (r: Result<string, Failure>)
    ensures var current := CurrentDirectory(settings.downloadLanguageServer, subDirs);
      r.Success? ==>
        (current.Some? && r.value == Basename(current.value.path))
        || (latest.Some? && r.value == Prefix + "." + latest.value.raw)
    ensures var current := CurrentDirectory(settings.downloadLanguageServer, subDirs);
      r.Failure? <==>
        (settings.autoUpdateLanguageServer && settings.downloadLanguageServer && current.Some?
         && Parse(minimumVersion, current.value.loose).None?)
        || (current.None? && latest.None?)
    ensures r.Failure? ==>
      r.error == InvalidMinimumVersion(minimumVersion) || r.error == MissingServerVersion
  {
    var current := CurrentDirectory(settings.downloadLanguageServer, subDirs);
    var should :- ShouldLookForNewLanguageServer(settings, minimumVersion, current, rule);
    SelectFolderName(current, should, latest)
  }

  // ---------------------------------------------------------------------
  // End-to-end properties

  /** With downloading disabled the answer is always the bare folder, whatever
      is on disk, whatever the lookup says and whatever the channel rule is. */
  lemma DownloadDisabledUsesBareFolder(
    settings: Settings,
    minimumVersion: string,
    subDirs: seq<string>,
    rule: Option<FolderVersionPair> -> bool,
    latest: Option<Package>
  )
    requires !settings.downloadLanguageServer
    ensures LanguageServerFolderName(settings, minimumVersion, subDirs, rule, latest) == Success(Prefix)
  {
    var current := CurrentDirectory(false, subDirs);
    assert current == Some(FolderVersionPair(Prefix, Zero, false));
    assert ShouldLookForNewLanguageServer(settings, minimumVersion, current, rule) == Success(false);
    BasenameOfName(Prefix);
    assert SelectFolderName(current, false, latest) == Success(Prefix);
  }

  /** A failed lookup never changes the answer when a folder exists. */
  lemma FailedLookupKeepsCurrentFolder(
    settings: Settings,
    minimumVersion: string,
    subDirs: seq<string>,
    rule: Option<FolderVersionPair> -> bool
  )
    requires CurrentDirectory(settings.downloadLanguageServer, subDirs).Some?
    requires ShouldLookForNewLanguageServer(
      settings, minimumVersion, CurrentDirectory(settings.downloadLanguageServer, subDirs), rule).Success?
    ensures LanguageServerFolderName(settings, minimumVersion, subDirs, rule, None)
      == Success(Basename(CurrentDirectory(settings.downloadLanguageServer, subDirs).value.path))
  {
  }

  /** A folder whose basename is `languageServer.<raw>` is discovered with
      the version `raw` parses to, built loosely. */
  lemma VersionedFolderDiscovered(path: string, raw: string, v: SemVer)
    requires Basename(path) == Prefix + "." + raw
    requires Parse(raw, true) == Some(v)
    ensures Discover([path]) == [FolderVersionPair(path, v, true)]
  {
    assert (Prefix + "." + raw)[..|Prefix|] == Prefix;
    FolderVersionOfName('.', raw, v);
    DiscoverOne(path);
  }

  /** A folder whose basename is the bare prefix is discovered at the strict
      `0.0.0` fallback. */
  lemma BareFolderDiscovered(path: string)
    requires Basename(path) == Prefix
    ensures Discover([path]) == [FolderVersionPair(path, Zero, false)]
  {
    assert IsServerFolder(path) by {
      assert Prefix[..|Prefix|] == Prefix;
    }
    BareFolderVersion('.');
    DiscoverOne(path);
  }

  /** With a bare folder on disk and both settings on, the minimum version is
      read strictly: text only the loose grammar accepts, such as a leading
      zero, makes the decision fail. */
  lemma BareFolderReadsMinimumStrictly(
    settings: Settings,
    minimumVersion: string,
    path: string,
    rule: Option<FolderVersionPair> -> bool
  )
    requires settings.autoUpdateLanguageServer && settings.downloadLanguageServer
    requires Basename(path) == Prefix
    ensures CurrentDirectory(true, [path]) == Some(FolderVersionPair(path, Zero, false))
    ensures ShouldLookForNewLanguageServer(settings, minimumVersion, CurrentDirectory(true, [path]), rule).Failure?
      <==> Parse(minimumVersion, false).None?
  {
    BareFolderDiscovered(path);
    assert LastMaxIndex([FolderVersionPair(path, Zero, false)]) == 0;
  }

  /** When the resolver names `languageServer.<raw>`, no folder on disk has a
      higher version than the one `raw` parses to. */
  lemma ChosenVersionBoundsDisk(
    settings: Settings,
    minimumVersion: string,
    subDirs: seq<string>,
    rule: Option<FolderVersionPair> -> bool,
    latest: Package
  )
    requires settings.downloadLanguageServer
    requires Parse(latest.raw, true) == Some(latest.version)
    requires LanguageServerFolderName(settings, minimumVersion, subDirs, rule, Some(latest))
      == Success(Prefix + "." + latest.raw)
    ensures forall j :: 0 <= j < |Discover(subDirs)| ==> LessEq(Discover(subDirs)[j].version, latest.version)
  {
    var v := latest.version;
    var name := Prefix + "." + latest.raw;
    var onDisk := Discover(subDirs);
    var current := CurrentDirectory(true, subDirs);
    if current.Some? {
      var k :| IsLastMax(onDisk, k) && current.value == onDisk[k];
      var should := ShouldLookForNewLanguageServer(settings, minimumVersion, current, rule);
      assert should.Success?;
      assert SelectFolderName(current, should.value, Some(latest)) == Success(name);
      if Basename(current.value.path) == name {
        FolderVersionOfName('.', latest.raw, v);
        assert Prefix + "." + latest.raw == Prefix + ['.'] + latest.raw;
        assert current.value.version == FolderVersion(name) == v;
        CompareZeroIsEquality(v, v);
      } else {
        LessEqTotal(v, current.value.version);
      }
      forall j | 0 <= j < |onDisk|
        ensures LessEq(onDisk[j].version, v)
      {
        LessEqTransitive(onDisk[j].version, current.value.version, v);
      }
    }
  }

  /** A folder appended after every folder of no higher version is selected. */
  lemma AppendedMaximumIsSelected(subDirs: seq<string>, path: string, e: FolderVersionPair)
    requires Discover([path]) == [e]
    requires forall j :: 0 <= j < |Discover(subDirs)| ==> LessEq(Discover(subDirs)[j].version, e.version)
    ensures CurrentDirectory(true, subDirs + [path]) == Some(e)
  {
    DiscoverAppend(subDirs, [path]);
    LastMaxOfAppended(Discover(subDirs), e);
  }

  /** The folder the resolver names is the one the next resolution selects
      once a download has created it under the storage directory and the
      listing puts it after the folders already there. */
  lemma NewFolderIsSelectedNext(
    settings: Settings,
    minimumVersion: string,
    subDirs: seq<string>,
    rule: Option<FolderVersionPair> -> bool,
    latest: Package,
    storage: string
  )
    requires settings.downloadLanguageServer
    requires Parse(latest.raw, true) == Some(latest.version)
    requires LanguageServerFolderName(settings, minimumVersion, subDirs, rule, Some(latest))
      == Success(Prefix + "." + latest.raw)
    ensures CurrentDirectory(true, subDirs + [storage + "/" + (Prefix + "." + latest.raw)])
      == Some(FolderVersionPair(storage + "/" + (Prefix + "." + latest.raw), latest.version, true))
  {
    ChosenVersionBoundsDisk(settings, minimumVersion, subDirs, rule, latest);
    DownloadedMaximumIsSelected(subDirs, latest, storage);
  }

  /** A downloaded `languageServer.<raw>` folder, listed after every folder
      already on disk and exceeded by none of them, is selected at that
      version, built loosely. On a tie the listing order decides, so the
      position matters. */
  lemma DownloadedMaximumIsSelected(subDirs: seq<string>, latest: Package, storage: string)
    requires Parse(latest.raw, true) == Some(latest.version)
    requires forall j :: 0 <= j < |Discover(subDirs)| ==> LessEq(Discover(subDirs)[j].version, latest.version)
    ensures CurrentDirectory(true, subDirs + [storage + "/" + (Prefix + "." + latest.raw)])
      == Some(FolderVersionPair(storage + "/" + (Prefix + "." + latest.raw), latest.version, true))
  {
    var name := Prefix + "." + latest.raw;
    ParsedTextCharacters(latest.raw, true, '/');
    assert '/' !in name;
    BasenameOfChild(storage, name);
    VersionedFolderDiscovered(storage + "/" + name, latest.raw, latest.version);
    AppendedMaximumIsSelected(subDirs, storage + "/" + name, FolderVersionPair(storage + "/" + name, latest.version, true));
  }
}
