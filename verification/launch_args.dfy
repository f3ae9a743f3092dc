/** The Java command line of a game launch: the agent and logging flags, the
  * manifest's JVM arguments, the class path, the module export the main
  * class needs on Java 9 and later, the main class and the game arguments
  * with their `${...}` placeholders filled in. */
module LaunchArgs {
  import opened Wrappers
  import opened KotlinText
  import opened Models
  import opened StringUtils
  import opened AccountUtils

  datatype LaunchError =
    | NoMainClass              // the manifest names no main class
    | MainClassWithoutPackage  // Java 9+ needs a package and the main class has no '.'
    | NoGameArguments          // `arguments` present with a null `game` list

  // ---------------------------------------------------------------------
  // splitAndFilterEmpty
  // ---------------------------------------------------------------------

  /** The words of an argument string: split at single spaces, empty words
    * (from doubled, leading or trailing spaces) dropped. */
  function SplitAndFilterEmpty(arg: Str): (r: seq<Str>)
    ensures PartsNonEmpty(r)
    ensures forall i :: 0 <= i < |r| ==> ' ' !in r[i]
  {
    var parts := Split(arg, ' ');
    NonEmptyKeepsFree(parts, ' ');
    NonEmptyParts(parts)
  }

  lemma {:induction false} NonEmptyKeepsFree(parts: seq<Str>, d: char)
    requires forall i :: 0 <= i < |parts| ==> d !in parts[i]
    ensures forall i :: 0 <= i < |NonEmptyParts(parts)| ==> d !in NonEmptyParts(parts)[i]
  {
    if |parts| > 0 {
      NonEmptyKeepsFree(parts[1..], d);
    }
  }

  lemma {:induction false} NonEmptyIdentity(parts: seq<Str>)
    requires PartsNonEmpty(parts)
    ensures NonEmptyParts(parts) == parts
  {
    if |parts| > 0 {
      NonEmptyIdentity(parts[1..]);
    }
  }

  /** Words joined by single spaces split back into the same words. */
  lemma WordsRoundTrip(words: seq<Str>)
    requires PartsNonEmpty(words)
    requires forall i :: 0 <= i < |words| ==> ' ' !in words[i]
    ensures SplitAndFilterEmpty(JoinWith(words, " ")) == words
  {
    if |words| == 0 {
      assert Split("", ' ') == [""];
    } else {
      JoinSplit(words, ' ');
      NonEmptyIdentity(words);
    }
  }

  /** Doubling a separator between two argument strings changes nothing. */
  lemma {:induction false} ExtraSpaceIgnored(x: Str, y: Str)
    ensures SplitAndFilterEmpty(x + " " + " " + y) == SplitAndFilterEmpty(x + " " + y)
  {
    var sx, sy := Split(x, ' '), Split(y, ' ');
    var sy' := Split([' '] + y, ' ');
    assert sy' == [""] + sy by {
      SplitAppend("", y, ' ');
      assert "" + [' '] + y == [' '] + y;
    }
    assert Split(x + " " + " " + y, ' ') == sx + sy' by {
      SplitAppend(x, [' '] + y, ' ');
      assert x + " " + " " + y == x + [' '] + ([' '] + y);
    }
    assert Split(x + " " + y, ' ') == sx + sy by {
      SplitAppend(x, y, ' ');
      assert x + " " + y == x + [' '] + y;
    }
    assert NonEmptyParts(sy') == NonEmptyParts(sy) by {
      assert sy'[1..] == sy;
    }
    NonEmptyAppend(sx, sy');
    NonEmptyAppend(sx, sy);
  }

  lemma {:induction false} NonEmptyAppend(a: seq<Str>, b: seq<Str>)
    ensures NonEmptyParts(a + b) == NonEmptyParts(a) + NonEmptyParts(b)
  {
    if |a| > 0 {
      assert (a + b)[1..] == a[1..] + b;
      NonEmptyAppend(a[1..], b);
    } else {
      assert a + b == b;
    }
  }

  // ---------------------------------------------------------------------
  // Placeholder values
  // ---------------------------------------------------------------------

  /** `version_type`: the version's custom info when it has visible text,
    * otherwise the manifest's type. */
  function VersionType(customInfo: Str, manifestType: Option<Str>): (r: Option<Str>)
    ensures !IsBlank(customInfo) ==> r == Some(customInfo)
    ensures IsBlank(customInfo) ==> r == manifestType
  {
    if |customInfo| > 0 && !IsBlank(customInfo) then Some(customInfo) else manifestType
  }

  /** The launcher-wide values a client argument may refer to. */
  datatype ClientContext = ClientContext(
    assetsHome: Str,
    gameDirectory: Str,
    minecraftVersion: Str,
    launcherName: Str,
    launcherVersion: Str,
    customInfo: Str)

  /** The key/value map of the client arguments; a null value is written as
    * the empty string. */
  function ClientArgEntries(acc: Account, m: Manifest, ctx: ClientContext): (e: seq<(Str, Str)>)
    ensures |e| == 15
  {
    [ ("auth_session", acc.accessToken),
      ("auth_access_token", acc.accessToken),
      ("auth_player_name", acc.username),
      ("auth_uuid", ReplaceAll(acc.profileId, "-", "")),
      ("auth_xuid", acc.xuid.GetOr("")),
      ("assets_root", ctx.assetsHome),
      ("assets_index_name", m.assets.GetOr("")),
      ("game_assets", ctx.assetsHome),
      ("game_directory", ctx.gameDirectory),
      ("user_properties", "{}"),
      ("user_type", "msa"),
      ("version_name", ctx.minecraftVersion),
      ("launcher_name", ctx.launcherName),
      ("launcher_version", ctx.launcherVersion),
      ("version_type", VersionType(ctx.customInfo, m.versionType).GetOr("")) ]
  }

  /** Each key is bound once, so every placeholder gets the intended value;
    * the player's UUID is handed over without dashes. */
  lemma ClientEntriesBind(acc: Account, m: Manifest, ctx: ClientContext)
    ensures Lookup(ClientArgEntries(acc, m, ctx), "auth_access_token") == Some(acc.accessToken)
    ensures Lookup(ClientArgEntries(acc, m, ctx), "auth_player_name") == Some(acc.username)
    ensures Lookup(ClientArgEntries(acc, m, ctx), "user_type") == Some("msa")
    ensures Lookup(ClientArgEntries(acc, m, ctx), "version_name") == Some(ctx.minecraftVersion)
    ensures var u := Lookup(ClientArgEntries(acc, m, ctx), "auth_uuid");
      u.Some? && '-' !in u.value
  {
    BindsAccount(acc, m, ctx);
    BindsUuid(acc, m, ctx);
    BindsUserType(acc, m, ctx);
    BindsVersionName(acc, m, ctx);
  }

  lemma BindsAccount(acc: Account, m: Manifest, ctx: ClientContext)
    ensures Lookup(ClientArgEntries(acc, m, ctx), "auth_access_token") == Some(acc.accessToken)
    ensures Lookup(ClientArgEntries(acc, m, ctx), "auth_player_name") == Some(acc.username)
  {
    var e := ClientArgEntries(acc, m, ctx);
    KeyMisses(e, "auth_access_token", 1);
    KeyMisses(e, "auth_player_name", 2);
  }

  lemma BindsUuid(acc: Account, m: Manifest, ctx: ClientContext)
    ensures var u := Lookup(ClientArgEntries(acc, m, ctx), "auth_uuid");
      u.Some? && '-' !in u.value
  {
    var e := ClientArgEntries(acc, m, ctx);
    ReplaceCharRemoves(acc.profileId, '-');
    KeyMisses(e, "auth_uuid", 3);
  }

  lemma BindsUserType(acc: Account, m: Manifest, ctx: ClientContext)
    ensures Lookup(ClientArgEntries(acc, m, ctx), "user_type") == Some("msa")
  {
    var e := ClientArgEntries(acc, m, ctx);
    KeyMisses(e, "user_type", 10);
  }

  lemma BindsVersionName(acc: Account, m: Manifest, ctx: ClientContext)
    ensures Lookup(ClientArgEntries(acc, m, ctx), "version_name") == Some(ctx.minecraftVersion)
  {
    var e := ClientArgEntries(acc, m, ctx);
    KeyMisses(e, "version_name", 11);
  }

  /** A lookup past entries with other keys. */
  lemma KeyMisses(e: seq<(Str, Str)>, key: Str, n: nat)
    requires n < |e| && e[n].0 == key
    requires forall i :: 0 <= i < n ==> e[i].0 != key
    ensures Lookup(e, key) == Some(e[n].1)
    decreases n
  {
    if n > 0 {
      assert e[0].0 != key;
      KeyMisses(e[1..], key, n - 1);
    }
  }

  /** `version_type` follows the custom info only when it has visible text. */
  lemma VersionTypeChoice(acc: Account, m: Manifest, ctx: ClientContext)
    ensures ClientArgEntries(acc, m, ctx)[14].0 == "version_type"
    ensures !IsBlank(ctx.customInfo) ==> ClientArgEntries(acc, m, ctx)[14].1 == ctx.customInfo
    ensures IsBlank(ctx.customInfo) ==> ClientArgEntries(acc, m, ctx)[14].1 == m.versionType.GetOr("")
  {
  }

  // ---------------------------------------------------------------------
  // Client (game) arguments
  // ---------------------------------------------------------------------

  /** The plain-string entries of an argument list, in order. */
  function TextArgs(args: seq<Arg>): (r: seq<Str>)
    ensures |r| <= |args|
  {
    if |args| == 0 then []
    else (if args[0].Text? then [args[0].text] else []) + TextArgs(args[1..])
  }

  /** The argument string the game arguments are taken from: the legacy
    * `minecraftArguments` when present, else the 1.13+ strings joined by
    * spaces. An `arguments` object without a `game` list is an error, even
    * when `minecraftArguments` is set. */
  function ClientArgSource(m: Manifest): (r: Result<Str, LaunchError>)
    ensures r.Err? <==> m.arguments.Some? && m.arguments.value.game.None?
    ensures r.Ok? && m.minecraftArguments.Some? ==> r.value == m.minecraftArguments.value
  {
    if m.arguments.Some? && m.arguments.value.game.None? then Err(NoGameArguments)
    else if m.minecraftArguments.Some? then Ok(m.minecraftArguments.value)
    else if m.arguments.Some? then Ok(JoinWith(TextArgs(m.arguments.value.game.value), " "))
    else Ok("")
  }

  /** `getMinecraftClientArgs`: the words of the source string with the
    * placeholders filled in. */
  function ClientArgs(acc: Account, m: Manifest, ctx: ClientContext): (r: Result<seq<Str>, LaunchError>)
    ensures r.Err? <==> ClientArgSource(m).Err?
    ensures r.Ok? ==> |r.value| == |SplitAndFilterEmpty(ClientArgSource(m).value)|
  {
    match ClientArgSource(m)
    case Err(e) => Err(e)
    case Ok(src) => Ok(InsertJsonValueList(SplitAndFilterEmpty(src), ClientArgEntries(acc, m, ctx)))
  }

  /** A 1.13+ manifest whose game strings are plain words without
    * placeholders reaches the command line unchanged and in order. */
  lemma PlainGameArgsPassThrough(acc: Account, m: Manifest, ctx: ClientContext)
    requires m.minecraftArguments.None? && m.arguments.Some? && m.arguments.value.game.Some?
    requires var t := TextArgs(m.arguments.value.game.value);
      PartsNonEmpty(t) && forall i :: 0 <= i < |t| ==> ' ' !in t[i] && !Contains(t[i], "${")
    ensures ClientArgs(acc, m, ctx) == Ok(TextArgs(m.arguments.value.game.value))
  {
    var t := TextArgs(m.arguments.value.game.value);
    assert ClientArgSource(m) == Ok(JoinWith(t, " "));
    WordsRoundTrip(t);
    var r := InsertJsonValueList(t, ClientArgEntries(acc, m, ctx));
    forall i | 0 <= i < |t| ensures r[i] == t[i] {
      InsertWithoutPlaceholders(t[i], ClientArgEntries(acc, m, ctx));
    }
    assert r == t;
  }

  // ---------------------------------------------------------------------
  // JVM arguments of the manifest
  // ---------------------------------------------------------------------

  /** `-DignoreList=` gets the version's own jar appended. */
  function AddIgnoreList(arg: Str, versionName: Str): (r: Str)
    ensures StartsWith(arg, "-DignoreList=") ==> r == arg + "," + versionName + ".jar"
    ensures !StartsWith(arg, "-DignoreList=") ==> r == arg
  {
    if StartsWith(arg, "-DignoreList=") then arg + "," + versionName + ".jar" else arg
  }

  /** The values the manifest's JVM arguments may refer to. */
  function JvmArgEntries(m: Manifest, librariesHome: Str, nativeLibDir: Str): seq<(Str, Str)>
  {
    [ ("classpath_separator", ":"),
      ("library_directory", librariesHome),
      ("version_name", m.id.GetOr("")),
      ("natives_directory", nativeLibDir) ]
  }

  /** The string JVM arguments of the manifest, each with the ignore list
    * extended; rule-guarded arguments are skipped. */
  function JvmStrings(jvm: seq<Arg>, versionName: Str): (r: seq<Str>)
    ensures |r| == |TextArgs(jvm)|
    ensures forall i :: 0 <= i < |r| ==> r[i] == AddIgnoreList(TextArgs(jvm)[i], versionName)
  {
    var t := TextArgs(jvm);
    seq(|t|, i requires 0 <= i < |t| => AddIgnoreList(t[i], versionName))
  }

  /** `getMinecraftJVMArgs` on the version's own (not inherited) manifest. */
  function MinecraftJvmArgs(m: Manifest, versionName: Str, librariesHome: Str, nativeLibDir: Str): (r: seq<Str>)
    ensures m.arguments.None? || m.arguments.value.jvm.None? ==> r == []
    ensures m.arguments.Some? && m.arguments.value.jvm.Some? ==>
      |r| == |TextArgs(m.arguments.value.jvm.value)|
  {
    if m.arguments.Some? && m.arguments.value.jvm.Some? then
      InsertJsonValueList(JvmStrings(m.arguments.value.jvm.value, versionName), JvmArgEntries(m, librariesHome, nativeLibDir))
    else []
  }

  // ---------------------------------------------------------------------
  // Java arguments
  // ---------------------------------------------------------------------

  /** Paths and probes the Java arguments depend on. `cacioArgs` is the AWT
    * backend's argument list for Java 8 and for later versions;
    * `nativesDir` is the per-version natives directory when it exists. */
  datatype JavaContext = JavaContext(
    nide8AuthJar: Str,
    authlibInjectorJar: Str,
    cacioArgs: bool -> seq<Str>,
    log4jConfig: Str,
    nativesDir: Option<Str>,
    nativeLibDir: Str)

  const Nide8Host: Str := "auth.mc-user.com"
  const Nide8Prefix: Str := "https://auth.mc-user.com:233/"

  /** The authentication agent: nide8auth for its host (with the server
    * prefix stripped from the URL), authlib-injector for any other server. */
  function AgentArgs(acc: Account, jc: JavaContext): (r: seq<Str>)
    ensures !IsOtherLoginAccount(acc) ==> r == []
    ensures IsOtherLoginAccount(acc) && Contains(acc.otherBaseUrl.value, Nide8Host) ==>
      |r| == 2 && StartsWith(r[0], "-javaagent:" + jc.nide8AuthJar + "=") && r[1] == "-Dnide8auth.client=true"
    ensures IsOtherLoginAccount(acc) && !Contains(acc.otherBaseUrl.value, Nide8Host) ==>
      r == ["-javaagent:" + jc.authlibInjectorJar + "=" + acc.otherBaseUrl.value]
  {
    if !IsOtherLoginAccount(acc) then []
    else
      var url := acc.otherBaseUrl.value;
      if Contains(url, Nide8Host) then
        ["-javaagent:" + jc.nide8AuthJar + "=" + ReplaceAll(url, Nide8Prefix, ""), "-Dnide8auth.client=true"]
      else ["-javaagent:" + jc.authlibInjectorJar + "=" + url]
  }

  /** The nide8auth agent gets the server id: the URL without its prefix. */
  lemma Nide8ServerId(acc: Account, jc: JavaContext, id: Str)
    requires acc.otherBaseUrl == Some(Nide8Prefix + id) && !Contains(id, Nide8Prefix)
    ensures AgentArgs(acc, jc)[0] == "-javaagent:" + jc.nide8AuthJar + "=" + id
  {
    var url := Nide8Prefix + id;
    assert url != "0";
    assert url[..|Nide8Prefix|] == Nide8Prefix;
    assert Nide8Prefix[8..8 + |Nide8Host|] == Nide8Host;
    assert url[8..8 + |Nide8Host|] == Nide8Prefix[8..8 + |Nide8Host|];
    assert OccursAt(url, Nide8Host, 8);
    ContainsIff(url, Nide8Host);
    assert url[..|Nide8Prefix|] == Nide8Prefix;
    assert url[|Nide8Prefix|..] == id;
    ReplaceAbsent(id, Nide8Prefix, "");
  }

  /** `getJavaArgs`: agent, AWT backend, logging configuration, then the
    * native library paths when the version has its own natives. */
  function JavaArgs(acc: Account, javaVersion: int, jc: JavaContext): (r: seq<Str>)
    ensures var n := |AgentArgs(acc, jc)| + |jc.cacioArgs(javaVersion == 8)|;
      n < |r| && r[n] == "-Dlog4j.configurationFile=" + jc.log4jConfig
      && r[..|AgentArgs(acc, jc)|] == AgentArgs(acc, jc)
      && (jc.nativesDir.None? ==> |r| == n + 1)
      && (jc.nativesDir.Some? ==>
            (|r| == n + 3
             && r[n + 1] == "-Djava.library.path=" + jc.nativesDir.value + ":" + jc.nativeLibDir
             && r[n + 2] == "-Djna.boot.library.path=" + jc.nativesDir.value))
  {
    var natives :=
      if jc.nativesDir.Some? then
        ["-Djava.library.path=" + jc.nativesDir.value + ":" + jc.nativeLibDir,
         "-Djna.boot.library.path=" + jc.nativesDir.value]
      else [];
    AgentArgs(acc, jc) + jc.cacioArgs(javaVersion == 8)
      + ["-Dlog4j.configurationFile=" + jc.log4jConfig] + natives
  }

  // ---------------------------------------------------------------------
  // The whole command line
  // ---------------------------------------------------------------------

  /** The LWJGL class path: the jars of the component directory joined with
    * ':', or nothing when the directory cannot be listed. */
  function Lwjgl3ClassPath(files: Option<seq<Str>>): (r: Str)
    ensures files.None? ==> r == ""
  {
    if files.None? then "" else JoinWith(Jars(files.value), ":")
  }

  function Jars(files: seq<Str>): (r: seq<Str>)
    ensures |r| <= |files|
    ensures forall i :: 0 <= i < |r| ==> EndsWith(r[i], ".jar") && r[i] in files
  {
    if |files| == 0 then []
    else (if EndsWith(files[0], ".jar") then [files[0]] else []) + Jars(files[1..])
  }

  /** The package of a main class: the text before its last '.'. */
  function PackageOf(mainClass: Str): (r: Option<Str>)
    ensures r.None? <==> '.' !in mainClass
    ensures r.Some? ==>
      (|r.value| < |mainClass| && mainClass[|r.value|] == '.'
       && mainClass[..|r.value|] == r.value && '.' !in mainClass[|r.value| + 1..])
  {
    var i := LastIndexOfChar(mainClass, '.');
    if i < 0 then None else Some(mainClass[..i])
  }

  /** The `--add-exports` pair opening the main class's package. */
  function ExportArgs(javaVersion: int, mainClass: Str): (r: Result<seq<Str>, LaunchError>)
    ensures javaVersion <= 8 ==> r == Ok([])
    ensures javaVersion > 8 ==> (r.Err? <==> '.' !in mainClass)
    ensures javaVersion > 8 && r.Ok? ==>
      |r.value| == 2 && r.value[0] == "--add-exports"
      && r.value[1] == PackageOf(mainClass).value + "/" + PackageOf(mainClass).value + "=ALL-UNNAMED"
  {
    if javaVersion <= 8 then Ok([])
    else
      var p := PackageOf(mainClass);
      if p.None? then Err(MainClassWithoutPackage)
      else Ok(["--add-exports", p.value + "/" + p.value + "=ALL-UNNAMED"])
  }

  /** `getAllArgs`: Java arguments, JVM arguments, the class path, the
    * exports, the main class, then the game arguments. */
  function AllArgs(javaArgs: seq<Str>, jvmArgs: seq<Str>, lwjglClassPath: Str, launchClassPath: Str,
                   javaVersion: int, mainClass: Option<Str>, clientArgs: seq<Str>): (r: Result<seq<Str>, LaunchError>)
    ensures r.Err? <==> mainClass.None? || (javaVersion > 8 && '.' !in mainClass.value)
    ensures r.Ok? ==>
      var n := |javaArgs| + |jvmArgs|;
      var k := |r.value| - |clientArgs|;
      n + 3 <= k && r.value[..|javaArgs|] == javaArgs && r.value[|javaArgs|..n] == jvmArgs
      && r.value[n] == "-cp" && r.value[n + 1] == lwjglClassPath + ":" + launchClassPath
      && r.value[k - 1] == mainClass.value && r.value[k..] == clientArgs
      && (javaVersion <= 8 ==> k == n + 3)
      && (javaVersion > 8 ==> k == n + 5 && r.value[n + 2] == "--add-exports")
  {
    if mainClass.None? then Err(NoMainClass)
    else match ExportArgs(javaVersion, mainClass.value)
      case Err(e) => Err(e)
      case Ok(exports) =>
        var head := javaArgs + jvmArgs + ["-cp", lwjglClassPath + ":" + launchClassPath] + exports;
        assert head[..|javaArgs|] == javaArgs;
        assert head[|javaArgs|..|javaArgs| + |jvmArgs|] == jvmArgs;
        Ok(head + [mainClass.value] + clientArgs)
  }

  /** The main class is the argument right after the class path on Java 8,
    * and right after the export pair on later versions. */
  lemma MainClassPosition(javaArgs: seq<Str>, jvmArgs: seq<Str>, lwjgl: Str, cp: Str,
                          javaVersion: int, mainClass: Str, clientArgs: seq<Str>)
    requires javaVersion <= 8 || '.' in mainClass
    ensures var r := AllArgs(javaArgs, jvmArgs, lwjgl, cp, javaVersion, Some(mainClass), clientArgs);
      var n := |javaArgs| + |jvmArgs|;
      r.Ok? && r.value[n + (if javaVersion > 8 then 4 else 2)] == mainClass
  {
  }

  /** `LaunchArgs` end to end: the game arguments come from the manifest the
    * game runs with, the JVM arguments from the version's own manifest. */
  function LaunchArguments(acc: Account, m: Manifest, ownManifest: Manifest, versionName: Str,
                           javaVersion: int, jc: JavaContext, ctx: ClientContext,
                           librariesHome: Str, lwjglFiles: Option<seq<Str>>,
                           launchClassPath: Str): (r: Result<seq<Str>, LaunchError>)
    ensures ClientArgs(acc, m, ctx).Err? ==> r.Err?
    ensures r.Ok? ==> HasPrefix(r.value, JavaArgs(acc, javaVersion, jc))
    ensures r.Ok? ==> var c := ClientArgs(acc, m, ctx).value;
      |c| <= |r.value| && r.value[|r.value| - |c|..] == c
  {
    Assemble(ClientArgs(acc, m, ctx), JavaArgs(acc, javaVersion, jc),
             MinecraftJvmArgs(ownManifest, versionName, librariesHome, jc.nativeLibDir),
             Lwjgl3ClassPath(lwjglFiles), launchClassPath, javaVersion, m.mainClass)
  }

  /** The game arguments, when they could be built, placed after everything else. */
  function Assemble(client: Result<seq<Str>, LaunchError>, javaArgs: seq<Str>, jvmArgs: seq<Str>,
                    lwjglClassPath: Str, launchClassPath: Str, javaVersion: int, mainClass: Option<Str>)
    : (r: Result<seq<Str>, LaunchError>)
    ensures client.Err? ==> r.Err?
    ensures r.Ok? ==> HasPrefix(r.value, javaArgs)
    ensures r.Ok? ==> |client.value| <= |r.value| && r.value[|r.value| - |client.value|..] == client.value
  {
    match client
    case Err(e) => Err(e)
    case Ok(c) => AllArgs(javaArgs, jvmArgs, lwjglClassPath, launchClassPath, javaVersion, mainClass, c)
  }

  /** `p` is the first part of `xs`. */
  predicate HasPrefix(xs: seq<Str>, p: seq<Str>) { |p| <= |xs| && xs[..|p|] == p }
}
