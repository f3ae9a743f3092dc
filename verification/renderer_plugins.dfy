/** Renderer plugins shipped as separate apps: how an app's metadata is read
  * into a plugin (renderer id, libraries, environment, libraries to
  * dlopen), the list of loaded plugins, and which of them has settings of
  * its own. */
module RendererPluginManager {
  import opened Wrappers
  import opened KotlinText
  import Renderers

  /** The metadata entries of an app that the manager reads. */
  datatype MetaData = MetaData(
    fclPlugin: bool,
    zalithRendererPlugin: bool,
    renderer: Option<Str>,
    des: Option<Str>,
    pojavEnv: Option<Str>)

  /** The parts of an installed app's `ApplicationInfo` the manager reads. */
  datatype AppInfo = AppInfo(
    isSystem: bool,
    metaData: Option<MetaData>,
    nativeLibraryDir: Str,
    packageName: Str)

  /** A loaded plugin, field by field as the manager builds it. */
  datatype RendererPlugin = RendererPlugin(
    id: Str,
    des: Str,
    uniqueIdentifier: Str,
    glName: Str,
    eglName: Str,
    path: Str,
    env: map<Str, Str>,
    dlopen: seq<Str>,
    packageName: Str)

  // ---------------------------------------------------------------------
  // The pojavEnv string
  // ---------------------------------------------------------------------

  const RendererKey: Str := "POJAV_RENDERER"
  const DlopenKey: Str := "DLOPEN"
  const MesaNameKey: Str := "LIB_MESA_NAME"
  const MesaLibraryKey: Str := "MESA_LIBRARY"

  /** Keys whose value is a file name in the plugin's native library
    * directory. */
  predicate IsLibraryKey(key: Str)
  {
    key == MesaNameKey || key == MesaLibraryKey
  }

  /** What the entries seen so far have set. */
  datatype EnvState = EnvState(rendererId: Str, env: map<Str, Str>, dlopen: seq<Str>)

  /** Text holding the delimiter splits into at least two parts. */
  lemma SplitHasTwoParts(s: Str, d: char)
    requires d in s
    ensures |Split(s, d)| >= 2
  {
    var parts := Split(s, d);
    SplitJoin(s, d);
    assert d !in parts[0];
  }

  /** The key and value of an entry: the text before the first '=' and the
    * text between the first and the second '='. */
  function EntryKeyValue(entry: Str): (kv: (Str, Str))
    requires '=' in entry
    ensures '=' !in kv.0 && '=' !in kv.1
  {
    SplitHasTwoParts(entry, '=');
    var parts := Split(entry, '=');
    (parts[0], parts[1])
  }

  /** An entry written as key=value with neither part holding '=' reads
    * back as that key and value. */
  lemma EntryRoundTrip(key: Str, value: Str)
    requires '=' !in key && '=' !in value
    ensures '=' in key + "=" + value
    ensures EntryKeyValue(key + "=" + value) == (key, value)
  {
    var e := key + "=" + value;
    assert e[|key|] == '=';
    SplitAppend(key, value, '=');
    assert key + ['='] + value == e;
    SplitWhole(key, '=');
    SplitWhole(value, '=');
  }

  /** One entry of `pojavEnv`: entries without '=' are skipped;
    * POJAV_RENDERER sets the renderer id, DLOPEN appends its
    * comma-separated libraries, the two Mesa keys get the library
    * directory in front, and any other key is copied. */
  function ApplyEntry(st: EnvState, entry: Str, nativeLibraryDir: Str): (r: EnvState)
    ensures '=' !in entry ==> r == st
  {
    if '=' !in entry then st
    else
      var (key, value) := EntryKeyValue(entry);
      if key == RendererKey then st.(rendererId := value)
      else if key == DlopenKey then st.(dlopen := st.dlopen + Split(value, ','))
      else if IsLibraryKey(key) then st.(env := st.env[key := nativeLibraryDir + "/" + value])
      else st.(env := st.env[key := value])
  }

  /** All entries, in order. */
  function ApplyEntries(st: EnvState, entries: seq<Str>, nativeLibraryDir: Str): (r: EnvState)
    decreases |entries|
  {
    if |entries| == 0 then st
    else ApplyEntries(ApplyEntry(st, entries[0], nativeLibraryDir), entries[1..], nativeLibraryDir)
  }

  /** The renderer id and dlopen keys are never copied into the
    * environment. */
  predicate NoControlKeys(env: map<Str, Str>)
  {
    RendererKey !in env && DlopenKey !in env
  }

  lemma {:induction false} ControlKeysStayOut(st: EnvState, entries: seq<Str>, nativeLibraryDir: Str)
    requires NoControlKeys(st.env)
    ensures NoControlKeys(ApplyEntries(st, entries, nativeLibraryDir).env)
    decreases |entries|
  {
    if |entries| > 0 {
      var st1 := ApplyEntry(st, entries[0], nativeLibraryDir);
      assert NoControlKeys(st1.env);
      ControlKeysStayOut(st1, entries[1..], nativeLibraryDir);
    }
  }

  /** The last POJAV_RENDERER entry decides the id; without one the id is
    * the one the entries started with. */
  function LastRendererValue(entries: seq<Str>): (r: Option<Str>)
    ensures r.Some? ==> '=' !in r.value
    decreases |entries|
  {
    if |entries| == 0 then None
    else
      var e := entries[|entries| - 1];
      if '=' in e && EntryKeyValue(e).0 == RendererKey then Some(EntryKeyValue(e).1)
      else LastRendererValue(entries[..|entries| - 1])
  }

  lemma {:induction false} RendererIdFromLastEntry(st: EnvState, entries: seq<Str>, nativeLibraryDir: Str)
    ensures ApplyEntries(st, entries, nativeLibraryDir).rendererId == LastRendererValue(entries).GetOr(st.rendererId)
    decreases |entries|
  {
    if |entries| > 0 {
      var n := |entries| - 1;
      ApplyEntriesSnoc(st, entries[..n], entries[n], nativeLibraryDir);
      assert entries == entries[..n] + [entries[n]];
      RendererIdFromLastEntry(st, entries[..n], nativeLibraryDir);
    }
  }

  /** Applying one more entry at the end. */
  lemma {:induction false} ApplyEntriesSnoc(st: EnvState, entries: seq<Str>, e: Str, nativeLibraryDir: Str)
    ensures ApplyEntries(st, entries + [e], nativeLibraryDir)
      == ApplyEntry(ApplyEntries(st, entries, nativeLibraryDir), e, nativeLibraryDir)
    decreases |entries|
  {
    if |entries| == 0 {
      assert [] + [e] == [e];
      assert [e][1..] == [];
    } else {
      assert (entries + [e])[1..] == entries[1..] + [e];
      ApplyEntriesSnoc(ApplyEntry(st, entries[0], nativeLibraryDir), entries[1..], e, nativeLibraryDir);
    }
  }

  /** The libraries to dlopen: the comma-separated parts of every DLOPEN
    * value, in entry order. */
  function DlopenValues(entries: seq<Str>): seq<Str>
    decreases |entries|
  {
    if |entries| == 0 then []
    else
      var e := entries[|entries| - 1];
      DlopenValues(entries[..|entries| - 1])
        + (if '=' in e && EntryKeyValue(e).0 == DlopenKey then Split(EntryKeyValue(e).1, ',') else [])
  }

  lemma {:induction false} DlopenCollectsAll(st: EnvState, entries: seq<Str>, nativeLibraryDir: Str)
    ensures ApplyEntries(st, entries, nativeLibraryDir).dlopen == st.dlopen + DlopenValues(entries)
    decreases |entries|
  {
    if |entries| > 0 {
      var n := |entries| - 1;
      ApplyEntriesSnoc(st, entries[..n], entries[n], nativeLibraryDir);
      assert entries == entries[..n] + [entries[n]];
      DlopenCollectsAll(st, entries[..n], nativeLibraryDir);
    }
  }

  /** A Mesa library entry is stored under the plugin's library directory. */
  lemma MesaEntryPrefixed(st: EnvState, key: Str, value: Str, nativeLibraryDir: Str)
    requires IsLibraryKey(key) && '=' !in value
    ensures var env := ApplyEntry(st, key + "=" + value, nativeLibraryDir).env;
      key in env && env[key] == nativeLibraryDir + "/" + value
  {
    assert '=' !in key;
    EntryRoundTrip(key, value);
  }

  /** `progressEglName`: an absolute name gets the library path in front. */
  function ProgressEglName(name: Str, libPath: Str): (r: Str)
    ensures EndsWith(r, name)
    ensures StartsWith(name, "/") ==> |r| == |libPath| + |name| && StartsWith(r, libPath)
    ensures !StartsWith(name, "/") ==> r == name
  {
    var r := if StartsWith(name, "/") then libPath + name else name;
    assert r[|r| - |name|..] == name;
    assert StartsWith(name, "/") ==> r[..|libPath|] == libPath;
    r
  }

  // ---------------------------------------------------------------------
  // Parsing an app
  // ---------------------------------------------------------------------

  datatype ParseOutcome =
    | Ignored                        // not a plugin, or metadata missing
    | Malformed                      // "renderer" has fewer than three ':' parts
    | Loaded(plugin: RendererPlugin)

  /** Whether an app announces itself as a plugin and has every metadata
    * entry the manager needs. */
  predicate IsPluginApp(info: AppInfo)
  {
    !info.isSystem && info.metaData.Some?
    && (info.metaData.value.fclPlugin || info.metaData.value.zalithRendererPlugin)
    && info.metaData.value.renderer.Some? && info.metaData.value.des.Some?
    && info.metaData.value.pojavEnv.Some?
  }

  /** `parseApkPlugin`; `appLabel` is the text shown after the description (the
    * app's label in the localized "from plugins" phrase). */
  function ParseApkPlugin(info: AppInfo, appLabel: Str): (r: ParseOutcome)
    ensures r.Ignored? <==> !IsPluginApp(info)
    ensures r.Malformed? <==> IsPluginApp(info) && |Split(info.metaData.value.renderer.value, ':')| < 3
    ensures r.Loaded? ==> (r.plugin.uniqueIdentifier == info.packageName && r.plugin.packageName == info.packageName
      && r.plugin.path == info.nativeLibraryDir && NoControlKeys(r.plugin.env))
  {
    if !IsPluginApp(info) then Ignored
    else
      var meta := info.metaData.value;
      var renderer := Split(meta.renderer.value, ':');
      var entries := Split(meta.pojavEnv.value, ':');
      var st := ApplyEntries(EnvState(renderer[0], map[], []), entries, info.nativeLibraryDir);
      ControlKeysStayOut(EnvState(renderer[0], map[], []), entries, info.nativeLibraryDir);
      if |renderer| < 3 then Malformed
      else Loaded(RendererPlugin(
        st.rendererId,
        meta.des.value + " (" + appLabel + ")",
        info.packageName,
        renderer[1],
        ProgressEglName(renderer[2], info.nativeLibraryDir),
        info.nativeLibraryDir,
        st.env,
        st.dlopen,
        info.packageName))
  }

  /** The id is the last POJAV_RENDERER value, else the first part of
    * "renderer"; the dlopen list collects every DLOPEN value. */
  lemma LoadedPluginFields(info: AppInfo, appLabel: Str)
    requires ParseApkPlugin(info, appLabel).Loaded?
    ensures var p := ParseApkPlugin(info, appLabel).plugin;
      var entries := Split(info.metaData.value.pojavEnv.value, ':');
      var renderer := Split(info.metaData.value.renderer.value, ':');
      p.id == LastRendererValue(entries).GetOr(renderer[0])
      && p.dlopen == DlopenValues(entries)
      && p.glName == renderer[1]
  {
    var entries := Split(info.metaData.value.pojavEnv.value, ':');
    var renderer := Split(info.metaData.value.renderer.value, ':');
    RendererIdFromLastEntry(EnvState(renderer[0], map[], []), entries, info.nativeLibraryDir);
    DlopenCollectsAll(EnvState(renderer[0], map[], []), entries, info.nativeLibraryDir);
  }

  // ---------------------------------------------------------------------
  // The plugin lists
  // ---------------------------------------------------------------------

  datatype Plugins = Plugins(all: seq<RendererPlugin>, fromApps: seq<RendererPlugin>)

  /** A parsed plugin is added to both lists; anything else changes
    * nothing. */
  function AddParsed(ps: Plugins, outcome: ParseOutcome): (r: Plugins)
    ensures outcome.Loaded? ==> r.all == ps.all + [outcome.plugin] && r.fromApps == ps.fromApps + [outcome.plugin]
    ensures !outcome.Loaded? ==> r == ps
  {
    if outcome.Loaded? then Plugins(ps.all + [outcome.plugin], ps.fromApps + [outcome.plugin]) else ps
  }

  /** `removeRenderer`: every plugin equal to one of the given ones leaves
    * the main list; the rest keep their order. */
  function RemoveRenderers(ps: Plugins, gone: set<RendererPlugin>): (r: Plugins)
    ensures r.fromApps == ps.fromApps
    ensures forall p :: p in r.all <==> p in ps.all && p !in gone
    ensures |r.all| <= |ps.all|
  {
    ps.(all := Without(ps.all, gone))
  }

  function Without(xs: seq<RendererPlugin>, gone: set<RendererPlugin>): (r: seq<RendererPlugin>)
    ensures forall p :: p in r <==> p in xs && p !in gone
    ensures |r| <= |xs|
    decreases |xs|
  {
    if |xs| == 0 then []
    else
      assert forall p :: p in xs <==> p == xs[0] || p in xs[1..];
      (if xs[0] in gone then [] else [xs[0]]) + Without(xs[1..], gone)
  }

  /** `clearPlugin`. */
  const Cleared: Plugins := Plugins([], [])

  /** `isAvailable`. */
  predicate IsAvailable(ps: Plugins)
  {
    |ps.all| > 0
  }

  /** The first plugin of the list with that identifier. */
  function FindPlugin(xs: seq<RendererPlugin>, uid: Str): (r: Option<RendererPlugin>)
    ensures r.Some? ==> r.value in xs && r.value.uniqueIdentifier == uid
    ensures r.None? ==> forall i :: 0 <= i < |xs| ==> xs[i].uniqueIdentifier != uid
    decreases |xs|
  {
    if |xs| == 0 then None
    else if xs[0].uniqueIdentifier == uid then Some(xs[0])
    else FindPlugin(xs[1..], uid)
  }

  /** `selectedRendererPlugin`: the plugin of the current renderer; none
    * when the registry cannot name one. */
  function SelectedPlugin(ps: Plugins, current: Result<Renderers.Renderer, Renderers.RendererError>): (r: Option<RendererPlugin>)
    ensures current.Err? ==> r.None?
    ensures r.Some? ==> r.value in ps.all && r.value.uniqueIdentifier == current.value.uniqueId
  {
    if current.Err? then None else FindPlugin(ps.all, current.value.uniqueId)
  }

  /** The plugin packages that come with settings of their own. */
  const ConfigurablePackages: set<Str> := {"com.bzlzhh.plugin.ngg", "com.bzlzhh.plugin.ngg.angleless", "com.fcl.plugin.mobileglues"}

  /** `getConfigurablePluginOrNull`: the app plugin with that identifier,
    * only when its package is one of the three. */
  function ConfigurablePlugin(ps: Plugins, uid: Str): (r: Option<RendererPlugin>)
    ensures r.Some? ==> r.value in ps.fromApps && r.value.uniqueIdentifier == uid && r.value.packageName in ConfigurablePackages
    ensures FindPlugin(ps.fromApps, uid).Some? && FindPlugin(ps.fromApps, uid).value.packageName in ConfigurablePackages ==> r.Some?
  {
    var p := FindPlugin(ps.fromApps, uid);
    if p.Some? && p.value.packageName in ConfigurablePackages then p else None
  }

  /** A plugin whose package is not on the list is never configurable. */
  lemma OnlyWhitelistedConfigurable(ps: Plugins, info: AppInfo, appLabel: Str)
    requires ParseApkPlugin(info, appLabel).Loaded? && info.packageName !in ConfigurablePackages
    ensures ConfigurablePlugin(AddParsed(ps, ParseApkPlugin(info, appLabel)), info.packageName)
      != Some(ParseApkPlugin(info, appLabel).plugin)
  {
  }
}
