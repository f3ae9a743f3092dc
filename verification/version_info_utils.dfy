/** Reading an installed version's JSON: which Minecraft version it is and
  * which mod loader (with version) it runs. A JSON that makes the reader
  * throw gives no information at all. */
module VersionInfoUtils {
  import opened Wrappers
  import opened KotlinText
  import opened VersionInfo

  /** An element of `arguments.game`: a JSON primitive read as a string, or
    * anything else. */
  datatype JsonArgItem = Primitive(text: Str) | Composite

  /** The fields of a version JSON the reader looks at. `patches` is present
    * when the JSON has a "patches" array, one optional "version" per entry;
    * `libraries` holds each library's "name". */
  datatype VersionJson = VersionJson(
    patches: Option<seq<Option<Str>>>,
    libraries: Option<seq<Str>>,
    id: Option<Str>,
    inheritsFrom: Option<Str>,
    gameArguments: Option<seq<JsonArgItem>>)

  /** The outcome of scanning the libraries: a hit, no hit, or a library
    * name whose split has no second part, which throws. */
  datatype Scan<T> = Found(value: T) | NotFound | Malformed

  /** The parts of a library name `group:artifact[:version]`. */
  datatype Coords = Coords(group: Str, artifact: Str, version: Str)

  /** The coordinates of a library name; a name without ':' has no artifact
    * and cannot be read. */
  function Coordinates(name: Str): (r: Option<Coords>)
    ensures r.None? <==> ':' !in name
    ensures r.Some? ==> ':' !in r.value.group && ':' !in r.value.artifact
  {
    var parts := Split(name, ':');
    SplitCountsDelimiters(name);
    if |parts| < 2 then None
    else Some(Coords(parts[0], parts[1], if |parts| > 2 then parts[2] else ""))
  }

  /** A split has a second part exactly when the delimiter occurs. */
  lemma SplitCountsDelimiters(name: Str)
    ensures |Split(name, ':')| >= 2 <==> ':' in name
  {
    if ':' in name {
      var i := IndexOfChar(name, ':');
      assert name == name[..i] + [':'] + name[i + 1..];
      SplitAppend(name[..i], name[i + 1..], ':');
    } else {
      SplitWhole(name, ':');
    }
  }

  // ---------------------------------------------------------------------
  // extractMinecraftVersion
  // ---------------------------------------------------------------------

  predicate IsMinecraftLibrary(c: Coords)
  {
    c.group == "net.minecraft" && (c.artifact == "client" || c.artifact == "server")
  }

  /** Library `i` is a Minecraft library of the given version. */
  predicate MinecraftAt(libs: seq<Str>, i: int, version: Str)
    requires 0 <= i < |libs|
  {
    Coordinates(libs[i]).Some? && IsMinecraftLibrary(Coordinates(libs[i]).value)
    && Coordinates(libs[i]).value.version == version
  }

  /** The version of the first `net.minecraft` client or server library. */
  function MinecraftLibraryVersion(libs: seq<Str>): (r: Scan<Str>)
    ensures r.Found? ==> exists i :: 0 <= i < |libs| && MinecraftAt(libs, i, r.value)
    ensures r.NotFound? <==> forall i :: 0 <= i < |libs| ==>
      Coordinates(libs[i]).Some? && !IsMinecraftLibrary(Coordinates(libs[i]).value)
  {
    if |libs| == 0 then NotFound
    else
      var c := Coordinates(libs[0]);
      if c.None? then Malformed
      else if IsMinecraftLibrary(c.value) then
        assert MinecraftAt(libs, 0, c.value.version);
        Found(c.value.version)
      else
        var r := MinecraftLibraryVersion(libs[1..]);
        assert forall i :: 0 < i < |libs| ==> libs[i] == libs[1..][i - 1];
        MinecraftShift(libs, r);
        r
  }

  /** A Minecraft library of the tail is one of the whole list. */
  lemma MinecraftShift(libs: seq<Str>, r: Scan<Str>)
    requires |libs| > 0
    ensures r.Found? && (exists i :: 0 <= i < |libs| - 1 && MinecraftAt(libs[1..], i, r.value)) ==>
      exists i :: 0 <= i < |libs| && MinecraftAt(libs, i, r.value)
  {
    if r.Found? && exists i :: 0 <= i < |libs| - 1 && MinecraftAt(libs[1..], i, r.value) {
      var i :| 0 <= i < |libs| - 1 && MinecraftAt(libs[1..], i, r.value);
      assert libs[1..][i] == libs[i + 1];
      assert MinecraftAt(libs, i + 1, r.value);
    }
  }

  /** `extractMinecraftVersion`: the first patch's version, else the
    * Minecraft library's, else `inheritsFrom`, else what the id patterns
    * recognise (`detect`), else the id itself. None when reading throws. */
  function ExtractMinecraftVersion(j: VersionJson, detect: Str -> Option<Str>): (r: Option<Str>)
    ensures j.patches.Some? && |j.patches.value| > 0 && j.patches.value[0].Some? ==>
      r == j.patches.value[0]
  {
    if j.patches.Some? && |j.patches.value| > 0 && j.patches.value[0].Some? then j.patches.value[0]
    else
      match (if j.libraries.Some? then MinecraftLibraryVersion(j.libraries.value) else NotFound)
      case Found(v) => Some(v)
      case Malformed => None
      case NotFound =>
        if j.id.None? then None
        else if j.inheritsFrom.Some? then j.inheritsFrom
        else Some(detect(j.id.value).GetOr(j.id.value))
  }

  /** Without a patch version or a Minecraft library, the version is
    * `inheritsFrom` when present, then the pattern match, then the id. */
  lemma VersionFallbacks(j: VersionJson, detect: Str -> Option<Str>)
    requires !(j.patches.Some? && |j.patches.value| > 0 && j.patches.value[0].Some?)
    requires j.libraries.None? || MinecraftLibraryVersion(j.libraries.value).NotFound?
    requires j.id.Some?
    ensures j.inheritsFrom.Some? ==> ExtractMinecraftVersion(j, detect) == j.inheritsFrom
    ensures j.inheritsFrom.None? && detect(j.id.value).Some? ==> ExtractMinecraftVersion(j, detect) == detect(j.id.value)
    ensures j.inheritsFrom.None? && detect(j.id.value).None? ==> ExtractMinecraftVersion(j, detect) == j.id
  {
  }

  /** Libraries before position `i` all read as non-Minecraft coordinates. */
  predicate PlainBefore(libs: seq<Str>, i: int)
    requires 0 <= i <= |libs|
  {
    forall k :: 0 <= k < i ==> Coordinates(libs[k]).Some? && !IsMinecraftLibrary(Coordinates(libs[k]).value)
  }

  /** Without a patch version, the first Minecraft library gives the
    * version, ahead of `inheritsFrom` and the id. */
  lemma LibraryTierFound(j: VersionJson, detect: Str -> Option<Str>, i: nat, v: Str)
    requires !(j.patches.Some? && |j.patches.value| > 0 && j.patches.value[0].Some?)
    requires j.libraries.Some? && i < |j.libraries.value|
    requires MinecraftAt(j.libraries.value, i, v) && PlainBefore(j.libraries.value, i)
    ensures ExtractMinecraftVersion(j, detect) == Some(v)
  {
    FirstMinecraft(j.libraries.value, i, v);
  }

  /** Without a patch version, a library name without ':' ahead of any
    * Minecraft library makes reading fail. */
  lemma LibraryTierMalformed(j: VersionJson, detect: Str -> Option<Str>, i: nat)
    requires !(j.patches.Some? && |j.patches.value| > 0 && j.patches.value[0].Some?)
    requires j.libraries.Some? && i < |j.libraries.value|
    requires Coordinates(j.libraries.value[i]).None? && PlainBefore(j.libraries.value, i)
    ensures ExtractMinecraftVersion(j, detect).None?
  {
    FirstMalformed(j.libraries.value, i);
  }

  lemma {:induction false} FirstMinecraft(libs: seq<Str>, i: nat, v: Str)
    requires i < |libs| && MinecraftAt(libs, i, v) && PlainBefore(libs, i)
    ensures MinecraftLibraryVersion(libs) == Found(v)
    decreases i
  {
    if i > 0 {
      assert libs[1..][i - 1] == libs[i];
      assert forall k :: 0 <= k < i - 1 ==> libs[1..][k] == libs[k + 1];
      FirstMinecraft(libs[1..], i - 1, v);
    }
  }

  lemma {:induction false} FirstMalformed(libs: seq<Str>, i: nat)
    requires i < |libs| && Coordinates(libs[i]).None? && PlainBefore(libs, i)
    ensures MinecraftLibraryVersion(libs).Malformed?
    decreases i
  {
    if i > 0 {
      assert libs[1..][i - 1] == libs[i];
      assert forall k :: 0 <= k < i - 1 ==> libs[1..][k] == libs[k + 1];
      FirstMalformed(libs[1..], i - 1);
    }
  }

  /** A name built from colon-free parts reads back as those parts. */
  lemma CoordinatesOf(g: Str, a: Str, v: Str)
    requires ':' !in g && ':' !in a && ':' !in v
    ensures Coordinates(g + ":" + a + ":" + v) == Some(Coords(g, a, v))
  {
    assert g + ":" + a + ":" + v == g + [':'] + a + [':'] + v;
    SplitThree(g, a, v, ':');
  }

  /** A version JSON listing a Minecraft library after well-formed other
    * libraries reports that library's version. */
  lemma {:induction false} FirstMinecraftLibrary(pre: seq<Str>, lib: Str, version: Str, post: seq<Str>)
    requires forall i :: 0 <= i < |pre| ==> Coordinates(pre[i]).Some? && !IsMinecraftLibrary(Coordinates(pre[i]).value)
    requires Coordinates(lib).Some? && IsMinecraftLibrary(Coordinates(lib).value)
    requires Coordinates(lib).value.version == version
    ensures MinecraftLibraryVersion(pre + [lib] + post) == Found(version)
    decreases |pre|
  {
    var libs := pre + [lib] + post;
    if |pre| == 0 {
      assert libs[0] == lib;
      MinecraftHead(libs);
    } else {
      var rest := pre[1..];
      assert forall i :: 0 <= i < |rest| ==> rest[i] == pre[i + 1];
      FirstMinecraftLibrary(rest, lib, version, post);
      TailAround(pre, lib, post);
      MinecraftSkip(libs);
    }
  }

  /** The tail of `pre + [x] + post`, for a non-empty `pre`, and its head. */
  lemma TailAround<T>(pre: seq<T>, x: T, post: seq<T>)
    requires |pre| > 0
    ensures (pre + [x] + post)[1..] == pre[1..] + [x] + post
    ensures (pre + [x] + post)[0] == pre[0]
  {
  }

  /** A Minecraft library at the head decides. */
  lemma MinecraftHead(libs: seq<Str>)
    requires |libs| > 0 && Coordinates(libs[0]).Some? && IsMinecraftLibrary(Coordinates(libs[0]).value)
    ensures MinecraftLibraryVersion(libs) == Found(Coordinates(libs[0]).value.version)
  {
  }

  /** A readable head that is no Minecraft library is skipped. */
  lemma MinecraftSkip(libs: seq<Str>)
    requires |libs| > 0 && Coordinates(libs[0]).Some? && !IsMinecraftLibrary(Coordinates(libs[0]).value)
    ensures MinecraftLibraryVersion(libs) == MinecraftLibraryVersion(libs[1..])
  {
  }

  /** The client library "net.minecraft:client:<version>" in particular. */
  lemma ClientLibraryVersion(pre: seq<Str>, version: Str, post: seq<Str>)
    requires forall i :: 0 <= i < |pre| ==> Coordinates(pre[i]).Some? && !IsMinecraftLibrary(Coordinates(pre[i]).value)
    requires ':' !in version
    ensures MinecraftLibraryVersion(pre + [ClientLibrary(version)] + post) == Found(version)
  {
    ClientCoordinates(version);
    FirstMinecraftLibrary(pre, ClientLibrary(version), version, post);
  }

  /** The name of the Minecraft client library of a version. */
  function ClientLibrary(version: Str): Str
  {
    "net.minecraft" + ":" + "client" + ":" + version
  }

  lemma ClientCoordinates(version: Str)
    requires ':' !in version
    ensures Coordinates(ClientLibrary(version)) == Some(Coords("net.minecraft", "client", version))
  {
    assert ':' !in "net.minecraft" && ':' !in "client";
    CoordinatesOf("net.minecraft", "client", version);
  }

  // ---------------------------------------------------------------------
  // detectModLoader
  // ---------------------------------------------------------------------

  /** The Forge version inside a library version: "mc-forge" gives the part
    * after the '-'; "mc-forge-mc" gives the middle; anything else is kept. */
  function ForgeVersionOf(version: Str): (r: Str)
    ensures multiset(version)['-'] == 1 ==> '-' !in r && EndsWith(version, r)
  {
    var hyphens := multiset(version)['-'];
    if hyphens == 1 then SubstringAfterLast(version, '-')
    else if hyphens >= 2 then
      var parts := Split(version, '-');
      if |parts| >= 3 && parts[0] == parts[|parts| - 1] then parts[1] else version
    else version
  }

  /** The new Forge naming: "1.21.4-54.0.26" gives "54.0.26". */
  lemma ForgeNewStyle(mc: Str, forge: Str)
    requires '-' !in mc && '-' !in forge
    ensures ForgeVersionOf(mc + "-" + forge) == forge
  {
    var v := mc + "-" + forge;
    assert multiset(v)['-'] == 1 by {
      assert multiset(v) == multiset(mc) + multiset("-") + multiset(forge);
      assert multiset(mc)['-'] == 0 && multiset(forge)['-'] == 0;
    }
    var i := LastIndexOfChar(v, '-');
    assert v[|mc|] == '-';
    assert v[|mc| + 1..] == forge;
    assert i == |mc|;
  }

  /** The old Forge naming: "1.7.10-10.13.4.1614-1.7.10" gives the middle. */
  lemma ForgeOldStyle(mc: Str, forge: Str)
    requires '-' !in mc && '-' !in forge
    ensures ForgeVersionOf(mc + "-" + forge + "-" + mc) == forge
  {
    var v := mc + "-" + forge + "-" + mc;
    assert multiset(v)['-'] == 2 by {
      assert multiset(v) == multiset(mc) + multiset("-") + multiset(forge) + multiset("-") + multiset(mc);
      assert multiset(mc)['-'] == 0 && multiset(forge)['-'] == 0;
    }
    assert v == mc + ['-'] + forge + ['-'] + mc;
    SplitThree(mc, forge, mc, '-');
  }

  /** `findNeoForgeVersion`: among the primitive game arguments, the one
    * right after the first "--fml.neoForgeVersion" that has a successor. */
  function FindNeoForgeVersion(items: seq<JsonArgItem>): (r: Option<Str>)
  {
    FindAfter(Primitives(items), NeoForgeFlag)
  }

  const NeoForgeFlag: Str := "--fml.neoForgeVersion"

  function Primitives(items: seq<JsonArgItem>): (r: seq<Str>)
    ensures |r| <= |items|
  {
    if |items| == 0 then []
    else (if items[0].Primitive? then [items[0].text] else []) + Primitives(items[1..])
  }

  /** The element after the first `flag` that is not the last element. */
  function FindAfter(args: seq<Str>, flag: Str): (r: Option<Str>)
    ensures r.Some? ==> exists i :: 0 <= i < |args| - 1 && args[i] == flag && args[i + 1] == r.value && flag !in args[..i]
    ensures r.None? <==> forall i :: 0 <= i < |args| - 1 ==> args[i] != flag
  {
    if |args| < 2 then None
    else if args[0] == flag then Some(args[1])
    else
      var r := FindAfter(args[1..], flag);
      assert forall i :: 0 < i < |args| ==> args[i] == args[1..][i - 1];
      r
  }

  /** The loader a single library stands for. */
  function LoaderOfLibrary(c: Coords, neoVersion: Option<Str>): (r: Option<LoaderInfo>)
    ensures r.Some? ==> r.value.name in {"Fabric", "Forge", "NeoForge", "OptiFine", "Quilt", "LiteLoader"}
  {
    var group, artifact, version := c.group, c.artifact, c.version;
    if group == "net.fabricmc" && artifact == "fabric-loader" then Some(LoaderInfo("Fabric", version))
    else if group == "net.minecraftforge" && (artifact == "forge" || artifact == "fmlloader") then
      Some(LoaderInfo("Forge", ForgeVersionOf(version)))
    else if group == "net.neoforged.fancymodloader" && artifact == "loader" then
      Some(LoaderInfo("NeoForge", neoVersion.GetOr(version)))
    else if (group == "optifine" || group == "net.optifine") && artifact == "OptiFine" then
      Some(LoaderInfo("OptiFine", version))
    else if group == "org.quiltmc" && artifact == "quilt-loader" then Some(LoaderInfo("Quilt", version))
    else if group == "com.mumfrey" && artifact == "liteloader" then Some(LoaderInfo("LiteLoader", version))
    else None
  }

  /** The loader library `i` stands for, if it can be read and is one. */
  function LoaderAt(libs: seq<Str>, i: int, neoVersion: Option<Str>): Option<LoaderInfo>
    requires 0 <= i < |libs|
  {
    if Coordinates(libs[i]).Some? then LoaderOfLibrary(Coordinates(libs[i]).value, neoVersion) else None
  }

  /** The first `n` libraries can all be read and none is a loader. */
  predicate NoLoaderBefore(libs: seq<Str>, n: int, neoVersion: Option<Str>)
    requires 0 <= n <= |libs|
  {
    forall j :: 0 <= j < n ==> Coordinates(libs[j]).Some? && LoaderAt(libs, j, neoVersion).None?
  }

  /** The loader of the first library that stands for one. */
  function ScanLoader(libs: seq<Str>, neoVersion: Option<Str>): (r: Scan<LoaderInfo>)
    ensures r.Found? ==> exists i :: 0 <= i < |libs| && LoaderAt(libs, i, neoVersion) == Some(r.value) && NoLoaderBefore(libs, i, neoVersion)
    ensures r.NotFound? <==> NoLoaderBefore(libs, |libs|, neoVersion)
  {
    if |libs| == 0 then NotFound
    else
      var c := Coordinates(libs[0]);
      if c.None? then Malformed
      else if LoaderOfLibrary(c.value, neoVersion).Some? then
        assert LoaderAt(libs, 0, neoVersion).Some? && NoLoaderBefore(libs, 0, neoVersion);
        Found(LoaderOfLibrary(c.value, neoVersion).value)
      else
        var r := ScanLoader(libs[1..], neoVersion);
        assert forall i :: 0 < i < |libs| ==> libs[i] == libs[1..][i - 1];
        LoaderShift(libs, neoVersion, r);
        r
  }

  /** The first loader of the tail, behind a library that is none, is the
    * first loader of the whole list. */
  lemma LoaderShift(libs: seq<Str>, neoVersion: Option<Str>, r: Scan<LoaderInfo>)
    requires |libs| > 0 && Coordinates(libs[0]).Some? && LoaderAt(libs, 0, neoVersion).None?
    ensures r.Found? && (exists i :: 0 <= i < |libs| - 1 &&
                                   LoaderAt(libs[1..], i, neoVersion) == Some(r.value) && NoLoaderBefore(libs[1..], i, neoVersion)) ==>
      exists i :: 0 <= i < |libs| && LoaderAt(libs, i, neoVersion) == Some(r.value) && NoLoaderBefore(libs, i, neoVersion)
  {
    if r.Found? && exists i :: 0 <= i < |libs| - 1 && LoaderAt(libs[1..], i, neoVersion) == Some(r.value)
                              && NoLoaderBefore(libs[1..], i, neoVersion) {
      var i :| 0 <= i < |libs| - 1 && LoaderAt(libs[1..], i, neoVersion) == Some(r.value)
               && NoLoaderBefore(libs[1..], i, neoVersion);
      LoaderAtTail(libs, i, neoVersion);
      NoLoaderBeforeTail(libs, i, neoVersion);
      assert LoaderAt(libs, i + 1, neoVersion) == Some(r.value) && NoLoaderBefore(libs, i + 1, neoVersion);
    }
  }

  /** Position `i` of the tail is position `i + 1` of the list. */
  lemma LoaderAtTail(libs: seq<Str>, i: int, neoVersion: Option<Str>)
    requires 0 <= i < |libs| - 1
    ensures LoaderAt(libs[1..], i, neoVersion) == LoaderAt(libs, i + 1, neoVersion)
  {
    assert libs[1..][i] == libs[i + 1];
  }

  /** A non-loader head in front of `i` loader-free libraries makes `i + 1`. */
  lemma NoLoaderBeforeTail(libs: seq<Str>, i: int, neoVersion: Option<Str>)
    requires 0 <= i < |libs| - 1
    requires Coordinates(libs[0]).Some? && LoaderAt(libs, 0, neoVersion).None?
    requires NoLoaderBefore(libs[1..], i, neoVersion)
    ensures NoLoaderBefore(libs, i + 1, neoVersion)
  {
    forall j | 0 <= j < i + 1 ensures Coordinates(libs[j]).Some? && LoaderAt(libs, j, neoVersion).None? {
      if j > 0 {
        assert libs[j] == libs[1..][j - 1];
        assert Coordinates(libs[1..][j - 1]).Some? && LoaderAt(libs[1..], j - 1, neoVersion).None?;
      }
    }
  }

  /** `detectModLoader`: the first loader library decides; NeoForge takes
    * its version from the game arguments when they carry one. */
  function DetectModLoader(j: VersionJson): (r: Scan<LoaderInfo>)
    ensures j.libraries.None? ==> r.NotFound?
  {
    var neo := if j.gameArguments.Some? then FindNeoForgeVersion(j.gameArguments.value) else None;
    if j.libraries.None? then NotFound else ScanLoader(j.libraries.value, neo)
  }

  /** `parseJson`: both readings, or nothing when either throws. */
  function ParseJson(j: VersionJson, detect: Str -> Option<Str>): (r: Option<VersionInfo>)
    ensures r.Some? <==> ExtractMinecraftVersion(j, detect).Some? && !DetectModLoader(j).Malformed?
    ensures r.Some? ==> (r.value.minecraftVersion == ExtractMinecraftVersion(j, detect).value
      && (r.value.loaderInfo.Some? <==> DetectModLoader(j).Found?))
  {
    match ExtractMinecraftVersion(j, detect)
    case None => None
    case Some(mc) =>
      match DetectModLoader(j)
      case Malformed => None
      case NotFound => Some(VersionInfo(mc, None))
      case Found(l) => Some(VersionInfo(mc, Some(l)))
  }

  /** The element after the first occurrence of a flag that has one. */
  lemma {:induction false} FindAfterFirst(pre: seq<Str>, flag: Str, v: Str, post: seq<Str>)
    requires flag !in pre
    ensures FindAfter(pre + [flag, v] + post, flag) == Some(v)
    decreases |pre|
  {
    var args := pre + [flag, v] + post;
    if |pre| == 0 {
      assert args[0] == flag && args[1] == v;
    } else {
      FindAfterFirst(pre[1..], flag, v, post);
      TailAround(pre, flag, [v] + post);
      assert args == pre + [flag] + ([v] + post);
      assert pre[1..] + [flag, v] + post == pre[1..] + [flag] + ([v] + post);
    }
  }

  /** A NeoForge loader reports the version from "--fml.neoForgeVersion". */
  lemma NeoForgeFromArguments(pre: seq<Str>, v: Str, post: seq<Str>, libVersion: Str)
    requires NeoForgeFlag !in pre
    ensures FindAfter(pre + [NeoForgeFlag, v] + post, NeoForgeFlag) == Some(v)
    ensures LoaderOfLibrary(Coords("net.neoforged.fancymodloader", "loader", libVersion),
                            FindAfter(pre + [NeoForgeFlag, v] + post, NeoForgeFlag)) == Some(LoaderInfo("NeoForge", v))
  {
    FindAfterFirst(pre, NeoForgeFlag, v, post);
  }
}
