/** The game-specific half of a launch: which libraries go on the classpath
  * and in what order, which Java runtime runs the game, the renderer's
  * environment variables and the GL extension lookup. */
module GameLauncher {
  import opened Wrappers
  import opened KotlinText
  import opened Models
  import opened DownloadUtils
  import opened MathUtils
  import opened Runtimes
  import opened Launcher

  // ---------------------------------------------------------------------
  // Library rules
  // ---------------------------------------------------------------------

  /** The one rule shape that rejects a library: allowed only on macOS. */
  predicate OsxOnly(rule: Rule)
  {
    rule.action == Some("allow") && rule.os.Some? && rule.os.value.name == Some("osx")
  }

  /** Scans the rules in order and stops at the first macOS-only one. */
  function NoOsxOnly(rules: seq<Rule>): (r: bool)
    ensures r <==> forall i :: 0 <= i < |rules| ==> !OsxOnly(rules[i])
  {
    if |rules| == 0 then true
    else if OsxOnly(rules[0]) then false
    else
      var rest := NoOsxOnly(rules[1..]);
      assert forall i :: 1 <= i < |rules| ==> rules[i] == rules[1..][i - 1];
      rest
  }

  /** `checkRules`: a library without rules is always used; otherwise it is
    * used unless one of its rules is "allow" on "osx". No other rule shape
    * (a "disallow", another OS) has any effect. */
  function CheckRules(rules: Option<seq<Rule>>): (r: bool)
    ensures rules.None? ==> r
    ensures rules.Some? ==> (!r <==> exists i :: 0 <= i < |rules.value| && OsxOnly(rules.value[i]))
  {
    rules.None? || NoOsxOnly(rules.value)
  }

  /** The verdict does not depend on the order of the rules. */
  lemma RuleOrderIrrelevant(a: seq<Rule>, b: seq<Rule>)
    requires multiset(a) == multiset(b)
    ensures CheckRules(Some(a)) == CheckRules(Some(b))
  {
    if !CheckRules(Some(a)) {
      var i :| 0 <= i < |a| && OsxOnly(a[i]);
      assert a[i] in multiset(b);
      var j :| 0 <= j < |b| && b[j] == a[i];
    }
    if !CheckRules(Some(b)) {
      var j :| 0 <= j < |b| && OsxOnly(b[j]);
      assert b[j] in multiset(a);
      var i :| 0 <= i < |a| && a[i] == b[j];
    }
  }

  // ---------------------------------------------------------------------
  // Classpath
  // ---------------------------------------------------------------------

  /** A library lands on the classpath when its rules admit it and it has a
    * file path. */
  predicate OnClasspath(lib: Library)
  {
    CheckRules(lib.rules) && ArtifactToPath(lib).Some?
  }

  /** A library's classpath entry: its file under the libraries home, or
    * nothing when its rules reject it or it has no path. */
  function EntryOf(libHome: Str, lib: Library): (r: Option<Str>)
    ensures r.Some? <==> OnClasspath(lib)
    ensures r.Some? ==> r.value == libHome + "/" + ArtifactToPath(lib).value
  {
    if OnClasspath(lib) then Some(libHome + "/" + ArtifactToPath(lib).value) else None
  }

  /** The present values of a list of optional entries, in order. */
  function Somes(es: seq<Option<Str>>): (r: seq<Str>)
    ensures |r| <= |es|
  {
    if |es| == 0 then []
    else (if es[0].Some? then [es[0].value] else []) + Somes(es[1..])
  }

  lemma {:induction false} SomesAppend(x: seq<Option<Str>>, y: seq<Option<Str>>)
    ensures Somes(x + y) == Somes(x) + Somes(y)
  {
    if |x| == 0 {
      assert x + y == y;
    } else {
      SomesAppend(x[1..], y);
      var xy := x + y;
      assert xy[0] == x[0];
      assert xy[1..] == x[1..] + y;
      var head: seq<Str> := if x[0].Some? then [x[0].value] else [];
      ConcatAssoc(head, Somes(x[1..]), Somes(y));
    }
  }

  lemma {:induction false} SomesMember(es: seq<Option<Str>>)
    ensures forall j :: 0 <= j < |Somes(es)| ==> exists i :: 0 <= i < |es| && es[i] == Some(Somes(es)[j])
  {
    if |es| > 0 {
      var head: seq<Str> := if es[0].Some? then [es[0].value] else [];
      var tail := Somes(es[1..]);
      SomesMember(es[1..]);
      var r := Somes(es);
      assert r == head + tail;
      forall j | 0 <= j < |r|
        ensures exists i :: 0 <= i < |es| && es[i] == Some(r[j])
      {
        if j < |head| {
          assert es[0] == Some(r[j]);
        } else {
          var i :| 0 <= i < |es[1..]| && es[1..][i] == Some(tail[j - |head|]);
          assert es[i + 1] == Some(r[j]);
        }
      }
    } else {
      assert Somes(es) == [];
    }
  }

  lemma {:induction false} SomesAll(es: seq<Option<Str>>)
    requires forall i :: 0 <= i < |es| ==> es[i].Some?
    ensures |Somes(es)| == |es|
    ensures forall i :: 0 <= i < |es| ==> Some(Somes(es)[i]) == es[i]
  {
    if |es| > 0 {
      var tail := Somes(es[1..]);
      SomesAll(es[1..]);
      var r := Somes(es);
      assert r == [es[0].value] + tail;
      forall i | 0 <= i < |es| ensures Some(r[i]) == es[i] {
        if i > 0 {
          assert es[1..][i - 1] == es[i];
          assert r[i] == tail[i - 1];
        }
      }
    }
  }

  /** Each library's entry, in manifest order. */
  function Entries(libs: seq<Library>, libHome: Str): (es: seq<Option<Str>>)
    ensures |es| == |libs|
    ensures forall i :: 0 <= i < |libs| ==> es[i] == EntryOf(libHome, libs[i])
  {
    seq(|libs|, i requires 0 <= i < |libs| => EntryOf(libHome, libs[i]))
  }

  /** `generateLibClasspath`: the admitted libraries' files under the
    * libraries home, in manifest order. */
  function LibClasspath(libs: seq<Library>, libHome: Str): (r: seq<Str>)
    ensures |r| <= |libs|
  {
    Somes(Entries(libs, libHome))
  }

  /** Every classpath entry is the file of some admitted library of the
    * list. */
  lemma LibClasspathEntries(libs: seq<Library>, libHome: Str)
    ensures forall j :: 0 <= j < |LibClasspath(libs, libHome)| ==>
      exists i :: 0 <= i < |libs| && EntryOf(libHome, libs[i]) == Some(LibClasspath(libs, libHome)[j])
  {
    var es := Entries(libs, libHome);
    var r := LibClasspath(libs, libHome);
    SomesMember(es);
    assert r == Somes(es);
    forall j | 0 <= j < |r|
      ensures exists i :: 0 <= i < |libs| && EntryOf(libHome, libs[i]) == Some(r[j])
    {
      var i :| 0 <= i < |es| && es[i] == Some(Somes(es)[j]);
      assert EntryOf(libHome, libs[i]) == Some(r[j]);
    }
  }

  /** The classpath of a concatenation is the concatenation of the
    * classpaths: entries keep the manifest's order. */
  lemma LibClasspathAppend(a: seq<Library>, b: seq<Library>, libHome: Str)
    ensures LibClasspath(a + b, libHome) == LibClasspath(a, libHome) + LibClasspath(b, libHome)
  {
    var ea, eb, eab := Entries(a, libHome), Entries(b, libHome), Entries(a + b, libHome);
    forall i | 0 <= i < |eab| ensures eab[i] == (ea + eb)[i] {
      if i < |a| {
        assert (a + b)[i] == a[i];
      } else {
        assert (a + b)[i] == b[i - |a|];
      }
    }
    assert eab == ea + eb;
    SomesAppend(ea, eb);
  }

  /** One library contributes its entry exactly when it is admitted. */
  lemma LibClasspathSingle(lib: Library, libHome: Str)
    ensures OnClasspath(lib) ==> LibClasspath([lib], libHome) == [libHome + "/" + ArtifactToPath(lib).value]
    ensures !OnClasspath(lib) ==> LibClasspath([lib], libHome) == []
  {
    var es := Entries([lib], libHome);
    assert es[1..] == [];
  }

  /** When every library is admitted, the i-th entry is the i-th library's. */
  lemma LibClasspathAllKept(libs: seq<Library>, libHome: Str)
    requires forall i :: 0 <= i < |libs| ==> EntryOf(libHome, libs[i]).Some?
    ensures |LibClasspath(libs, libHome)| == |libs|
    ensures forall i :: 0 <= i < |libs| ==> Some(LibClasspath(libs, libHome)[i]) == EntryOf(libHome, libs[i])
  {
    SomesAll(Entries(libs, libHome));
  }

  /** Each entry followed by ':' (the client-last layout). */
  function Suffixed(entries: seq<Str>): Str
  {
    if |entries| == 0 then "" else entries[0] + ":" + Suffixed(entries[1..])
  }

  /** Each entry preceded by ':' (the client-first layout). */
  function Prefixed(entries: seq<Str>): Str
  {
    if |entries| == 0 then "" else ":" + entries[0] + Prefixed(entries[1..])
  }

  lemma {:induction false} SuffixedJoin(entries: seq<Str>, last: Str)
    ensures Suffixed(entries) + last == JoinWith(entries + [last], ":")
    decreases |entries|
  {
    if |entries| > 0 {
      SuffixedJoin(entries[1..], last);
      assert (entries + [last])[1..] == entries[1..] + [last];
    }
  }

  lemma {:induction false} PrefixedJoin(first: Str, entries: seq<Str>)
    ensures first + Prefixed(entries) == JoinWith([first] + entries, ":")
    decreases |entries|
  {
    if |entries| > 0 {
      PrefixedJoin(entries[0], entries[1..]);
      assert ([first] + entries)[1..] == [entries[0]] + entries[1..];
      assert entries == [entries[0]] + entries[1..];
    }
  }

  /** The client jar of a version: `<versionPath>/<versionName>.jar`. */
  function ClientJar(versionPath: Str, versionName: Str): Str
  {
    versionPath + "/" + versionName + ".jar"
  }

  /** `generateLaunchClassPath` over the library entries: the client jar
    * first or last, the entries joined by ':'; when the client jar does not
    * exist every library entry is skipped and only the client path is left. */
  function LaunchClassPath(entries: seq<Str>, client: Str, clientExists: bool, isClientFirst: bool): (r: Str)
    ensures !clientExists ==> r == client
    ensures clientExists && !isClientFirst ==> r == JoinWith(entries + [client], ":")
    ensures clientExists && isClientFirst ==> r == JoinWith([client] + entries, ":")
  {
    if !clientExists then client
    else if isClientFirst then
      PrefixedJoin(client, entries);
      client + Prefixed(entries)
    else
      SuffixedJoin(entries, client);
      Suffixed(entries) + client
  }

  /** Splitting a client-last classpath at ':' gives back the library
    * entries and then the client jar, when no path holds a ':'. */
  lemma ClasspathSplits(entries: seq<Str>, client: Str)
    requires forall i :: 0 <= i < |entries| ==> ':' !in entries[i]
    requires ':' !in client
    ensures Split(LaunchClassPath(entries, client, true, false), ':') == entries + [client]
  {
    var parts := entries + [client];
    assert forall i :: 0 <= i < |parts| ==> ':' !in parts[i] by {
      forall i | 0 <= i < |parts| ensures ':' !in parts[i] {
        if i < |entries| { assert parts[i] == entries[i]; }
      }
    }
    JoinSplit(parts, ':');
  }

  /** The whole classpath of a version. */
  function GenerateLaunchClassPath(libs: seq<Library>, libHome: Str, versionPath: Str, versionName: Str,
                                   clientExists: bool, isClientFirst: bool): (r: Str)
    ensures !clientExists ==> r == ClientJar(versionPath, versionName)
    ensures clientExists && !isClientFirst ==>
      r == JoinWith(LibClasspath(libs, libHome) + [ClientJar(versionPath, versionName)], ":")
  {
    LaunchClassPath(LibClasspath(libs, libHome), ClientJar(versionPath, versionName), clientExists, isClientFirst)
  }

  // ---------------------------------------------------------------------
  // Runtime choice
  // ---------------------------------------------------------------------

  /** The Java major version the manifest asks for, 8 when it says nothing. */
  function TargetJavaVersion(javaVersion: Option<JavaVersion>): int
  {
    if javaVersion.Some? then javaVersion.value.majorVersion else 8
  }

  /** The configured runtime is unusable for the game: unknown version or
    * older than the target. */
  predicate NeedsPick(picked: Runtime, target: int)
  {
    picked.javaVersion == 0 || picked.javaVersion < target
  }

  /** `getRuntime`: the version's own runtime if it names one; otherwise the
    * configured runtime, replaced by the nearest installed runtime that is
    * new enough when auto-pick is on and the configured one is unusable.
    * When no installed runtime qualifies, the configured one is kept. */
  method GetRuntime(versionRuntime: Str, javaVersion: Option<JavaVersion>, setting: Str, autoPick: bool,
                    cache: Cache, release: ReleaseFile, bundled: set<Str>, installed: seq<Runtime>)
    returns (name: Str)
    requires javaVersion.Some? ==> InInt(javaVersion.value.majorVersion)
    requires forall i :: 0 <= i < |installed| ==> InInt(installed[i].javaVersion)
    ensures versionRuntime != "" ==> name == versionRuntime
    ensures versionRuntime == "" &&
      !(autoPick && NeedsPick(LoadRuntime(cache, setting, false, release, bundled).0, TargetJavaVersion(javaVersion)))
      ==> name == setting
    ensures versionRuntime == "" && autoPick
      && NeedsPick(LoadRuntime(cache, setting, false, release, bundled).0, TargetJavaVersion(javaVersion))
      && (forall i :: 0 <= i < |installed| ==> !Eligible(TargetJavaVersion(javaVersion), installed[i].javaVersion))
      ==> name == setting
    ensures versionRuntime == "" && autoPick
      && NeedsPick(LoadRuntime(cache, setting, false, release, bundled).0, TargetJavaVersion(javaVersion))
      && (exists i :: 0 <= i < |installed| && Eligible(TargetJavaVersion(javaVersion), installed[i].javaVersion))
      ==> exists i :: 0 <= i < |installed| && installed[i].name == name
            && Eligible(TargetJavaVersion(javaVersion), installed[i].javaVersion)
    ensures versionRuntime == "" && autoPick && TargetJavaVersion(javaVersion) >= 0
      && NeedsPick(LoadRuntime(cache, setting, false, release, bundled).0, TargetJavaVersion(javaVersion))
      && (exists i :: 0 <= i < |installed| && Eligible(TargetJavaVersion(javaVersion), installed[i].javaVersion))
      ==> exists i :: 0 <= i < |installed| && installed[i].name == name
            && installed[i].javaVersion >= TargetJavaVersion(javaVersion)
            && forall j :: 0 <= j < |installed| && installed[j].javaVersion >= TargetJavaVersion(javaVersion) ==>
                 installed[i].javaVersion <= installed[j].javaVersion
  {
    if versionRuntime != "" {
      return versionRuntime;
    }
    var target := TargetJavaVersion(javaVersion);
    name := setting;
    var picked := LoadRuntime(cache, setting, false, release, bundled).0;
    if autoPick && NeedsPick(picked, target) {
      var nearest := NearestJreName(installed, target);
      if nearest.Some? {
        name := nearest.value;
      }
    }
  }

  // ---------------------------------------------------------------------
  // Renderer environment
  // ---------------------------------------------------------------------

  /** The GLES version a renderer runs on: 2 on a device below GLES 3; for a
    * GLES renderer its id without "opengles" and "_5"; else 3. */
  function LibglEs(glesMajor: int, rendererId: Str): (r: Str)
    ensures glesMajor < 3 ==> r == "2"
    ensures glesMajor >= 3 && !StartsWith(rendererId, "opengles") ==> r == "3"
  {
    if glesMajor < 3 then "2"
    else if StartsWith(rendererId, "opengles") then ReplaceAll(ReplaceAll(rendererId, "opengles", ""), "_5", "")
    else "3"
  }

  /** A GLES renderer named "opengles" + v runs on GLES v, for a plain
    * suffix v such as "3". */
  lemma OpenGlesLevel(glesMajor: int, v: Str)
    requires glesMajor >= 3
    requires !Contains(v, "opengles") && !Contains(v, "_5")
    ensures LibglEs(glesMajor, "opengles" + v) == v
  {
    var id := "opengles" + v;
    assert StartsWith(id, "opengles") by { assert id[..8] == "opengles"; }
    assert id[..8] == "opengles" && id[8..] == v;
    ReplaceAbsent(v, "opengles", "");
    assert ReplaceAll(id, "opengles", "") == v;
    ReplaceAbsent(v, "_5", "");
  }

  /** The current renderer, as `setRendererEnv` reads it. */
  datatype RendererSetup = RendererSetup(
    id: Str,
    env: map<Str, Str>,
    egl: Option<Str>,
    library: Str,
    pluginSelected: bool)

  /** The variables set for a renderer whose id does not start with
    * "opengles" (Mesa Zink), besides LIBGL_ES. */
  const ZinkKeys: set<Str> := {
    "MESA_LOADER_DRIVER_OVERRIDE", "MESA_GLSL_CACHE_DIR", "force_glsl_extensions_warn",
    "allow_higher_compat_version", "allow_glsl_extension_directive_midshader", "LIB_MESA_NAME" }

  const Gles2Keys: set<Str> := {
    "LIBGL_ES", "LIBGL_MIPMAP", "LIBGL_NOERROR", "LIBGL_NOINTOVLHACK", "LIBGL_NORMALIZE" }

  function Gles2Env(env: map<Str, Str>): map<Str, Str>
  {
    env["LIBGL_ES" := "2"]["LIBGL_MIPMAP" := "3"]["LIBGL_NOERROR" := "1"]
       ["LIBGL_NOINTOVLHACK" := "1"]["LIBGL_NORMALIZE" := "1"]
  }

  function ZinkEnv(env: map<Str, Str>, cacheDir: Str, library: Str): map<Str, Str>
  {
    env["MESA_LOADER_DRIVER_OVERRIDE" := "zink"]["MESA_GLSL_CACHE_DIR" := cacheDir]
       ["force_glsl_extensions_warn" := "true"]["allow_higher_compat_version" := "true"]
       ["allow_glsl_extension_directive_midshader" := "true"]["LIB_MESA_NAME" := library]
  }

  /** `setRendererEnv`. A renderer plugin stops after POJAV_RENDERER;
    * otherwise LIBGL_ES always ends up set, and the value that wins is the
    * renderer's own, then the GLES 2 preset, then one already in the
    * environment, then the detected choice. */
  function SetRendererEnv(env: map<Str, Str>, rs: RendererSetup, cacheDir: Str, glesMajor: int)
    : (r: map<Str, Str>)
    ensures "POJAV_RENDERER" in r
    ensures rs.egl.Some? ==> "POJAVEXEC_EGL" in r
    ensures !rs.pluginSelected ==> "LIBGL_ES" in r
  {
    var e1 := if StartsWith(rs.id, "opengles2") then Gles2Env(env) else env;
    var e2 := e1 + rs.env;
    var e3 := if rs.egl.Some? then e2["POJAVEXEC_EGL" := rs.egl.value] else e2;
    var e4 := e3["POJAV_RENDERER" := rs.id];
    if rs.pluginSelected then e4
    else
      var e5 := if !StartsWith(rs.id, "opengles") then ZinkEnv(e4, cacheDir, rs.library) else e4;
      if "LIBGL_ES" in e5 then e5 else e5["LIBGL_ES" := LibglEs(glesMajor, rs.id)]
  }

  /** Without a plugin, the LIBGL_ES that wins is the renderer's own, then
    * the GLES 2 preset's, then one already in the environment, then the
    * detected choice. */
  lemma SetRendererEnvLibglEs(env: map<Str, Str>, rs: RendererSetup, cacheDir: Str, glesMajor: int)
    requires !rs.pluginSelected
    ensures var r := SetRendererEnv(env, rs, cacheDir, glesMajor);
      "LIBGL_ES" in r && r["LIBGL_ES"] ==
        (if "LIBGL_ES" in rs.env then rs.env["LIBGL_ES"]
         else if StartsWith(rs.id, "opengles2") then "2"
         else if "LIBGL_ES" in env then env["LIBGL_ES"]
         else LibglEs(glesMajor, rs.id))
  {
    var e1 := if StartsWith(rs.id, "opengles2") then Gles2Env(env) else env;
    var e2 := e1 + rs.env;
    var e3 := if rs.egl.Some? then e2["POJAVEXEC_EGL" := rs.egl.value] else e2;
    var e4 := e3["POJAV_RENDERER" := rs.id];
    var e5 := if !StartsWith(rs.id, "opengles") then ZinkEnv(e4, cacheDir, rs.library) else e4;
    LibglEsKeyApart();
    assert ("LIBGL_ES" in e4) == ("LIBGL_ES" in e2);
    assert "LIBGL_ES" in e2 ==> e4["LIBGL_ES"] == e2["LIBGL_ES"];
    assert ("LIBGL_ES" in e5) == ("LIBGL_ES" in e4);
    assert "LIBGL_ES" in e4 ==> e5["LIBGL_ES"] == e4["LIBGL_ES"];
  }

  /** POJAV_RENDERER names the renderer: no later variable overwrites it. */
  lemma SetRendererEnvRenderer(env: map<Str, Str>, rs: RendererSetup, cacheDir: Str, glesMajor: int)
    ensures var r := SetRendererEnv(env, rs, cacheDir, glesMajor);
      "POJAV_RENDERER" in r && r["POJAV_RENDERER"] == rs.id
  {
    var e1 := if StartsWith(rs.id, "opengles2") then Gles2Env(env) else env;
    var e2 := e1 + rs.env;
    var e3 := if rs.egl.Some? then e2["POJAVEXEC_EGL" := rs.egl.value] else e2;
    var e4 := e3["POJAV_RENDERER" := rs.id];
    var e5 := if !StartsWith(rs.id, "opengles") then ZinkEnv(e4, cacheDir, rs.library) else e4;
    RendererKeyApart();
    assert e5["POJAV_RENDERER"] == rs.id;
  }

  /** POJAV_RENDERER is none of the keys set after it. */
  lemma RendererKeyApart()
    ensures "POJAV_RENDERER" !in ZinkKeys && "POJAV_RENDERER" != "LIBGL_ES"
  {
  }

  /** LIBGL_ES is none of the other keys the renderer sets. */
  lemma LibglEsKeyApart()
    ensures "LIBGL_ES" != "POJAVEXEC_EGL" && "LIBGL_ES" != "POJAV_RENDERER"
    ensures "LIBGL_ES" !in ZinkKeys
  {
  }

  /** Variables the renderer does not concern keep their values, and only
    * the renderer's variables are added. */
  lemma SetRendererEnvFrame(env: map<Str, Str>, rs: RendererSetup, cacheDir: Str, glesMajor: int)
    ensures var r := SetRendererEnv(env, rs, cacheDir, glesMajor);
      forall k :: (k in env && k !in rs.env && k !in Gles2Keys && k !in ZinkKeys
                   && k != "POJAVEXEC_EGL" && k != "POJAV_RENDERER") ==> k in r && r[k] == env[k]
    ensures var r := SetRendererEnv(env, rs, cacheDir, glesMajor);
      forall k :: k in r ==>
        k in env || k in rs.env || k in Gles2Keys || k in ZinkKeys || k == "POJAVEXEC_EGL" || k == "POJAV_RENDERER"
  {
  }

  /** `loadGraphicsLibrary`: nothing without a valid renderer; a plugin's
    * GL library inside the plugin; else the renderer's library. */
  function GraphicsLibrary(rendererValid: bool, plugin: Option<(Str, Str)>, rendererLibrary: Str): (r: Option<Str>)
    ensures r.None? <==> !rendererValid
    ensures rendererValid && plugin.None? ==> r == Some(rendererLibrary)
    ensures rendererValid && plugin.Some? ==> r.Some? && EndsWith(r.value, "/" + plugin.value.1)
  {
    if !rendererValid then None
    else if plugin.Some? then Some(plugin.value.0 + "/" + plugin.value.1)
    else Some(rendererLibrary)
  }

  /** The game's override of the final argument step: the renderer's GL
    * library name is appended after the launcher's own arguments. */
  function GameFinalUserArgs(args: seq<Str>, env: LaunchEnv, rendererValid: bool,
                             plugin: Option<(Str, Str)>, rendererLibrary: Str): (r: seq<Str>)
    ensures rendererValid ==>
      |r| >= 1 && r[..|r| - 1] == ProgressFinalUserArgs(args, env)
      && StartsWith(r[|r| - 1], "-Dorg.lwjgl.opengl.libname=")
    ensures !rendererValid ==> r == ProgressFinalUserArgs(args, env)
  {
    var base := ProgressFinalUserArgs(args, env);
    var lib := GraphicsLibrary(rendererValid, plugin, rendererLibrary);
    if lib.Some? then
      var arg := "-Dorg.lwjgl.opengl.libname=" + lib.value;
      assert (base + [arg])[..|base|] == base;
      base + [arg]
    else base
  }

  /** The appended library name does not disturb the single heap setting. */
  lemma GameOneHeapSetting(args: seq<Str>, env: LaunchEnv, rendererValid: bool,
                           plugin: Option<(Str, Str)>, rendererLibrary: Str)
    ensures CountPrefixed(GameFinalUserArgs(args, env, rendererValid, plugin, rendererLibrary), "-Xms") == 1
    ensures CountPrefixed(GameFinalUserArgs(args, env, rendererValid, plugin, rendererLibrary), "-Xmx") == 1
  {
    var r := GameFinalUserArgs(args, env, rendererValid, plugin, rendererLibrary);
    OneHeapSetting(args, env);
    if rendererValid {
      LibnameKeepsHeap(ProgressFinalUserArgs(args, env), r);
    }
  }

  lemma LibnameKeepsHeap(base: seq<Str>, r: seq<Str>)
    requires |r| >= 1 && r[..|r| - 1] == base
    requires StartsWith(r[|r| - 1], "-Dorg.lwjgl.opengl.libname=")
    ensures CountPrefixed(r, "-Xms") == CountPrefixed(base, "-Xms")
    ensures CountPrefixed(r, "-Xmx") == CountPrefixed(base, "-Xmx")
  {
    var last := r[|r| - 1];
    assert r == base + [last];
    assert last[1] == 'D';
    CountSnoc(base, last, "-Xms");
    CountSnoc(base, last, "-Xmx");
  }

  // ---------------------------------------------------------------------
  // GL extensions
  // ---------------------------------------------------------------------

  /** `name` occurs at `i` as a whole extension: nothing but the end of the
    * list or a space follows it. */
  ghost predicate ExtensionAt(extensions: Str, name: Str, i: int)
  {
    OccursAt(extensions, name, i)
    && (i + |name| == |extensions| || extensions[i + |name|] == ' ')
  }

  /** Some proper suffix of `name` is also a prefix of it, so two of its
    * occurrences can overlap. */
  ghost predicate SelfOverlapping(name: Str)
  {
    exists k :: 0 < k < |name| && name[k..] == name[..|name| - k]
  }

  /** Two occurrences that start less than a name's length apart overlap. */
  lemma OverlapWitness(s: Str, name: Str, a: int, b: int)
    requires OccursAt(s, name, a) && OccursAt(s, name, b)
    requires a < b < a + |name|
    ensures SelfOverlapping(name)
  {
    var k := b - a;
    forall j | 0 <= j < |name| - k ensures name[k..][j] == name[..|name| - k][j] {
      assert s[b + j] == name[j];
      assert s[a + k + j] == name[k + j];
    }
    assert name[k..] == name[..|name| - k];
  }

  /** `hasExtension`: walks the occurrences of `name`, each search resuming
    * after the previous match, until one is followed by the end or a space.
    * A reported extension is always a whole one; every whole one is found
    * when the name cannot overlap itself. */
  method HasExtension(extensions: Str, name: Str) returns (found: bool)
    requires |name| > 0
    ensures found ==> exists i :: ExtensionAt(extensions, name, i)
    ensures !SelfOverlapping(name) ==> (found <==> exists i :: ExtensionAt(extensions, name, i))
  {
    var start := IndexOf(extensions, name);
    while start >= 0
      invariant start == -1 || OccursAt(extensions, name, start)
      invariant !SelfOverlapping(name) ==>
        forall i :: 0 <= i && (start == -1 || i < start) ==> !ExtensionAt(extensions, name, i)
      decreases if start < 0 then 0 else |extensions| - start + 1
    {
      var end := start + |name|;
      if end == |extensions| || extensions[end] == ' ' {
        assert ExtensionAt(extensions, name, start);
        return true;
      }
      var next := IndexOfFrom(extensions, name, end);
      if !SelfOverlapping(name) {
        forall i | 0 <= i && (next == -1 || i < next) ensures !ExtensionAt(extensions, name, i) {
          if start < i < end && OccursAt(extensions, name, i) {
            OverlapWitness(extensions, name, start, i);
          }
        }
      }
      start := next;
    }
    return false;
  }
}
