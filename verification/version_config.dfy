/** The per-version settings file: the isolation choice, Java directory and
  * arguments, renderer, driver, control layout, custom game path and
  * custom info text. Fields read from JSON may be missing (null), and are
  * read as "" and FOLLOW_GLOBAL. */
module VersionConfig {
  import opened Wrappers
  import opened KotlinText

  datatype IsolationType = FollowGlobal | Enable | Disable

  datatype VersionConfig = VersionConfig(
    versionPath: Str,
    isolationType: Option<IsolationType>,
    javaDir: Option<Str>,
    javaArgs: Option<Str>,
    renderer: Option<Str>,
    driver: Option<Str>,
    control: Option<Str>,
    customPath: Option<Str>,
    customInfo: Option<Str>)

  /** `getStringNotNull`. */
  function NotNull(s: Option<Str>): (r: Str)
    ensures s.Some? ==> r == s.value
    ensures s.None? ==> r == ""
  {
    s.GetOr("")
  }

  /** `getIsolationType`: a missing type follows the global setting. */
  function TypeOf(c: VersionConfig): (t: IsolationType)
    ensures c.isolationType.None? ==> t == FollowGlobal
    ensures c.isolationType.Some? ==> t == c.isolationType.value
  {
    c.isolationType.GetOr(FollowGlobal)
  }

  /** A config as the secondary constructor builds it. */
  function Make(path: Str, t: IsolationType, javaDir: Str, javaArgs: Str, renderer: Str, driver: Str,
                control: Str, customPath: Str, customInfo: Str): VersionConfig
  {
    VersionConfig(path, Some(t), Some(javaDir), Some(javaArgs), Some(renderer), Some(driver),
                  Some(control), Some(customPath), Some(customInfo))
  }

  /** `VersionConfig(versionPath)`: every field at its default. */
  function Fresh(path: Str): VersionConfig
  {
    Make(path, FollowGlobal, "", "", "", "", "", "", "")
  }

  /** `createIsolation`. */
  function CreateIsolation(path: Str): (c: VersionConfig)
    ensures TypeOf(c) == Enable
    ensures c == Fresh(path).(isolationType := Some(Enable))
  {
    Fresh(path).(isolationType := Some(Enable))
  }

  /** `isIsolation`: ENABLE and DISABLE decide, FOLLOW_GLOBAL (also a
    * missing type) takes the global setting. */
  predicate IsIsolation(c: VersionConfig, globalIsolation: bool)
  {
    match TypeOf(c)
    case FollowGlobal => globalIsolation
    case Enable => true
    case Disable => false
  }

  lemma IsolationCases(c: VersionConfig, globalIsolation: bool)
    ensures TypeOf(c) == Enable ==> IsIsolation(c, globalIsolation)
    ensures TypeOf(c) == Disable ==> !IsIsolation(c, globalIsolation)
    ensures c.isolationType.None? ==> (IsIsolation(c, globalIsolation) <==> globalIsolation)
    ensures IsIsolation(CreateIsolation(c.versionPath), false)
  {
  }

  /** `checkDifferent`: some of the eight settings differ, missing values
    * read as their defaults. */
  predicate CheckDifferent(a: VersionConfig, b: VersionConfig)
  {
    !(TypeOf(a) == TypeOf(b)
      && NotNull(a.javaDir) == NotNull(b.javaDir)
      && NotNull(a.javaArgs) == NotNull(b.javaArgs)
      && NotNull(a.renderer) == NotNull(b.renderer)
      && NotNull(a.driver) == NotNull(b.driver)
      && NotNull(a.control) == NotNull(b.control)
      && NotNull(a.customPath) == NotNull(b.customPath)
      && NotNull(a.customInfo) == NotNull(b.customInfo))
  }

  /** `copy`: the same path and settings, missing values filled in. */
  function Copy(c: VersionConfig): (r: VersionConfig)
    ensures r.versionPath == c.versionPath
    ensures !CheckDifferent(r, c) && !CheckDifferent(c, r)
    ensures r.isolationType.Some? && r.javaDir.Some? && r.customInfo.Some?
  {
    Make(c.versionPath, TypeOf(c), NotNull(c.javaDir), NotNull(c.javaArgs), NotNull(c.renderer),
         NotNull(c.driver), NotNull(c.control), NotNull(c.customPath), NotNull(c.customInfo))
  }

  /** Copying a copy changes nothing. */
  lemma CopyIdempotent(c: VersionConfig)
    ensures Copy(Copy(c)) == Copy(c)
  {
  }

  /** Two configs differ exactly when their filled-in copies, paths aside,
    * are not equal; so `checkDifferent` is symmetric and a config never
    * differs from itself. */
  lemma DifferentIffCopiesDiffer(a: VersionConfig, b: VersionConfig)
    ensures CheckDifferent(a, b) <==> Copy(a).(versionPath := "") != Copy(b).(versionPath := "")
    ensures CheckDifferent(a, b) <==> CheckDifferent(b, a)
    ensures !CheckDifferent(a, a)
  {
  }

  // ---------------------------------------------------------------------
  // Parcel
  // ---------------------------------------------------------------------

  /** What a parcel holds: nullable strings and ints. */
  datatype ParcelValue = PString(s: Option<Str>) | PInt(n: int)

  function Ordinal(t: IsolationType): (n: int)
    ensures 0 <= n < 3
  {
    match t
    case FollowGlobal => 0
    case Enable => 1
    case Disable => 2
  }

  /** `IsolationType.entries.getOrNull(n) ?: FOLLOW_GLOBAL`. */
  function FromOrdinal(n: int): (t: IsolationType)
    ensures (n < 0 || n >= 3) ==> t == FollowGlobal
  {
    if n == 1 then Enable else if n == 2 then Disable else FollowGlobal
  }

  lemma OrdinalRoundTrip(t: IsolationType)
    ensures FromOrdinal(Ordinal(t)) == t
  {
  }

  /** `writeToParcel`: the path, the type's ordinal and the seven strings. */
  function WriteToParcel(c: VersionConfig): (r: seq<ParcelValue>)
    ensures |r| == 9
  {
    [PString(Some(c.versionPath)), PInt(Ordinal(TypeOf(c))),
     PString(Some(NotNull(c.javaDir))), PString(Some(NotNull(c.javaArgs))),
     PString(Some(NotNull(c.renderer))), PString(Some(NotNull(c.driver))),
     PString(Some(NotNull(c.control))), PString(Some(NotNull(c.customPath))),
     PString(Some(NotNull(c.customInfo)))]
  }

  /** A string read from the parcel, `orEmpty()`; a missing or mistyped
    * slot reads as "". */
  function ReadString(p: seq<ParcelValue>, i: nat): Str
  {
    if i < |p| && p[i].PString? then p[i].s.GetOr("") else ""
  }

  function ReadInt(p: seq<ParcelValue>, i: nat): int
  {
    if i < |p| && p[i].PInt? then p[i].n else 0
  }

  /** `createFromParcel`. */
  function CreateFromParcel(p: seq<ParcelValue>): (c: VersionConfig)
    ensures c.isolationType.Some?
  {
    Make(ReadString(p, 0), FromOrdinal(ReadInt(p, 1)), ReadString(p, 2), ReadString(p, 3),
         ReadString(p, 4), ReadString(p, 5), ReadString(p, 6), ReadString(p, 7), ReadString(p, 8))
  }

  /** A config sent through a parcel comes back with the same path and no
    * different setting; it is the config's copy. */
  lemma ParcelRoundTrip(c: VersionConfig)
    ensures CreateFromParcel(WriteToParcel(c)) == Copy(c)
    ensures !CheckDifferent(CreateFromParcel(WriteToParcel(c)), c)
  {
    OrdinalRoundTrip(TypeOf(c));
  }
}

/** An installed version: its folder, its config and version information,
  * and the settings a launch reads from it, falling back to the global
  * ones. */
module InstalledVersion {
  import opened Wrappers
  import opened KotlinText
  import opened VersionConfig
  import VersionInfo

  /** The global settings and paths a version falls back to. */
  datatype Globals = Globals(
    versionsHome: Str,
    gameHome: Str,
    versionIsolation: bool,
    renderer: Str,
    vulkanDriver: Str,
    versionCustomInfo: Str,
    launcherVersion: Str)

  /** `summary` and `jvmArgs` are the config's version summary and JVM
    * arguments. */
  datatype Version = Version(
    versionName: Str,
    config: VersionConfig,
    info: Option<VersionInfo.VersionInfo>,
    isValid: bool,
    summary: Str,
    jvmArgs: Str)

  /** `getVersionPath`: the version's folder in the versions home. */
  function VersionPath(v: Version, g: Globals): Str
  {
    g.versionsHome + "/" + v.versionName
  }

  /** `getVersionName`: the last component of the version's folder. */
  function VersionName(v: Version, g: Globals): (r: Str)
    ensures '/' !in r
  {
    SubstringAfterLast(VersionPath(v, g), '/')
  }

  /** A name without '/' is its own folder's last component. */
  lemma VersionNameIsName(v: Version, g: Globals)
    requires '/' !in v.versionName
    ensures VersionName(v, g) == v.versionName
  {
    var p := VersionPath(v, g);
    var k := LastIndexOfChar(p, '/');
    assert p[|g.versionsHome|] == '/';
    assert k == |g.versionsHome| by {
      assert forall j :: |g.versionsHome| < j < |p| ==> p[j] == v.versionName[j - |g.versionsHome| - 1];
    }
    assert p[k + 1..] == v.versionName;
  }

  /** `isValid`: the version was found valid and its folder exists. */
  predicate IsValid(v: Version, folderExists: bool)
  {
    v.isValid && folderExists
  }

  datatype VersionError = InvalidVersion | MissingInfo

  /** `getVersionSummary`: an invalid version fails; a summary with visible
    * text is used, otherwise the version information's text (a version
    * without information fails there). */
  function VersionSummary(v: Version, folderExists: bool): (r: Result<Str, VersionError>)
    ensures !IsValid(v, folderExists) <==> r == Err(InvalidVersion)
    ensures IsValid(v, folderExists) && !IsBlank(v.summary) ==> r == Ok(v.summary)
    ensures IsValid(v, folderExists) && IsBlank(v.summary) && v.info.Some? ==> r == Ok(VersionInfo.InfoString(v.info.value))
    ensures r == Err(MissingInfo) <==> IsValid(v, folderExists) && IsBlank(v.summary) && v.info.None?
  {
    if !IsValid(v, folderExists) then Err(InvalidVersion)
    else if |v.summary| > 0 && !IsBlank(v.summary) then Ok(v.summary)
    else if v.info.None? then Err(MissingInfo)
    else Ok(VersionInfo.InfoString(v.info.value))
  }

  /** `getGameDir`: the version's own folder when isolated, else a custom
    * path when one is set, else the game home. */
  function GameDir(v: Version, g: Globals): (r: Str)
    ensures IsIsolation(v.config, g.versionIsolation) ==> r == v.config.versionPath
    ensures !IsIsolation(v.config, g.versionIsolation) ==> (r == g.gameHome || (r == NotNull(v.config.customPath) && |r| > 0))
  {
    if IsIsolation(v.config, g.versionIsolation) then v.config.versionPath
    else if |NotNull(v.config.customPath)| > 0 then NotNull(v.config.customPath)
    else g.gameHome
  }

  /** A version given an isolated config plays in that config's folder
    * whatever the global setting and custom path; one that follows a
    * global "no isolation" with no custom path plays in the game home. */
  lemma GameDirOfIsolated(v: Version, g: Globals)
    ensures v.config == CreateIsolation(v.config.versionPath) ==> GameDir(v, g) == v.config.versionPath
    ensures (TypeOf(v.config) == FollowGlobal && !g.versionIsolation && NotNull(v.config.customPath) == "") ==>
      GameDir(v, g) == g.gameHome
  {
  }

  /** `getValueOrDefault`: the value unless it is empty. */
  function ValueOrDefault(value: Str, default: Str): (r: Str)
    ensures |r| > 0 || (value == "" && default == "")
    ensures value != "" ==> r == value
    ensures value == "" ==> r == default
  {
    if |value| > 0 then value else default
  }

  /** `getRenderer` and `getDriver`: the version's choice, else the global
    * one. */
  function Renderer(v: Version, g: Globals): Str
  {
    ValueOrDefault(NotNull(v.config.renderer), g.renderer)
  }

  function Driver(v: Version, g: Globals): Str
  {
    ValueOrDefault(NotNull(v.config.driver), g.vulkanDriver)
  }

  /** A version with no renderer or driver of its own launches with the
    * global ones; one with its own keeps them. */
  lemma SettingFallbacks(v: Version, g: Globals)
    ensures NotNull(v.config.renderer) == "" ==> Renderer(v, g) == g.renderer
    ensures NotNull(v.config.renderer) != "" ==> Renderer(v, g) == v.config.renderer.value
    ensures NotNull(v.config.driver) == "" ==> Driver(v, g) == g.vulkanDriver
    ensures NotNull(v.config.driver) != "" ==> Driver(v, g) == v.config.driver.value
  {
  }

  const VersionMarker: Str := "[zl_version]"

  /** `getCustomInfo`: the version's text, else the global one, with every
    * "[zl_version]" replaced by the launcher's version. */
  function CustomInfo(v: Version, g: Globals): Str
  {
    ReplaceAll(ValueOrDefault(NotNull(v.config.customInfo), g.versionCustomInfo), VersionMarker, g.launcherVersion)
  }

  /** A text without the marker is shown as it is. */
  lemma CustomInfoPlain(v: Version, g: Globals)
    requires !Contains(ValueOrDefault(NotNull(v.config.customInfo), g.versionCustomInfo), VersionMarker)
    ensures CustomInfo(v, g) == ValueOrDefault(NotNull(v.config.customInfo), g.versionCustomInfo)
  {
    ReplaceAbsent(ValueOrDefault(NotNull(v.config.customInfo), g.versionCustomInfo), VersionMarker, g.launcherVersion);
  }

  /** A marker between a '['-free prefix and a marker-free suffix becomes
    * the launcher's version. */
  lemma CustomInfoTemplate(v: Version, g: Globals, before: Str, after: Str)
    requires NotNull(v.config.customInfo) == before + VersionMarker + after
    requires '[' !in before && !Contains(after, VersionMarker)
    ensures CustomInfo(v, g) == before + g.launcherVersion + after
  {
    var s := before + VersionMarker + after;
    assert s == before + (VersionMarker + after);
    ReplacePassThrough(before, VersionMarker + after, VersionMarker, g.launcherVersion);
    ReplaceAtMatch(after, VersionMarker, g.launcherVersion);
    ReplaceAbsent(after, VersionMarker, g.launcherVersion);
  }
}
