/** How a game download is planned: which files are fetched from where to
  * where, the counters the progress display reads, and when an existing
  * file is kept. The transfers themselves are not modelled. */
module MinecraftDownloader {
  import opened Wrappers
  import opened KotlinText
  import opened Models
  import DownloadUtils

  const MinecraftRes: Str := "https://resources.download.minecraft.net/"

  const DefaultLibraryRepo: Str := "https://libraries.minecraft.net/"

  /** The launcher's folders for assets, mapped resources, versions and
    * libraries. */
  datatype Homes = Homes(assets: Str, resources: Str, versions: Str, libraries: Str)

  /** `File(dir, child)` on Android, where the separator is '/'. */
  function Child(dir: Str, child: Str): Str
  {
    dir + "/" + child
  }

  /** A file to fetch: `scheduleDownload`'s arguments. */
  datatype Request = Request(url: Str, sha1: Option<Str>, target: Str, size: int)

  /** A queued `DownloadTask`. */
  datatype DownloadTask = DownloadTask(url: Str, target: Str, sha1: Option<Str>)

  /** The queue and the totals the progress display shows. */
  datatype Plan = Plan(tasks: seq<DownloadTask>, totalCount: int, totalSize: int)

  const EmptyPlan: Plan := Plan([], 0, 0)

  function TaskOf(q: Request): DownloadTask
  {
    DownloadTask(q.url, q.target, q.sha1)
  }

  function TotalSize(qs: seq<Request>): int
    decreases |qs|
  {
    if |qs| == 0 then 0 else TotalSize(qs[..|qs| - 1]) + qs[|qs| - 1].size
  }

  /** `scheduleDownload`: one more file, its size added to the total. */
  function ScheduleDownload(p: Plan, q: Request): Plan
  {
    Plan(p.tasks + [TaskOf(q)], p.totalCount + 1, p.totalSize + q.size)
  }

  /** The requests scheduled one after another. */
  function ScheduleAll(p: Plan, qs: seq<Request>): (r: Plan)
    decreases |qs|
  {
    if |qs| == 0 then p else ScheduleDownload(ScheduleAll(p, qs[..|qs| - 1]), qs[|qs| - 1])
  }

  /** Scheduling counts every request once, adds every size, and queues the
    * requests in order after the tasks already queued. */
  lemma {:induction false} ScheduleAllCounts(p: Plan, qs: seq<Request>)
    ensures ScheduleAll(p, qs).totalCount == p.totalCount + |qs|
    ensures ScheduleAll(p, qs).totalSize == p.totalSize + TotalSize(qs)
    ensures |ScheduleAll(p, qs).tasks| == |p.tasks| + |qs|
    ensures ScheduleAll(p, qs).tasks[..|p.tasks|] == p.tasks
    ensures forall i :: 0 <= i < |qs| ==> ScheduleAll(p, qs).tasks[|p.tasks| + i] == TaskOf(qs[i])
    decreases |qs|
  {
    if |qs| > 0 {
      ScheduleAllCounts(p, qs[..|qs| - 1]);
    }
  }

  // ---------------------------------------------------------------------
  // The client jar
  // ---------------------------------------------------------------------

  /** `versions/<v>/<v>.jar`. */
  function VersionJar(homes: Homes, version: Str): Str
  {
    Child(homes.versions, version + "/" + version + ".jar")
  }

  /** `scheduleClientJarDownload`: the client download, when the manifest
    * has one. A missing URL is read as empty. */
  function ClientJarRequests(m: Manifest, homes: Homes, version: Str): (r: seq<Request>)
    ensures |r| <= 1
    ensures |r| == 1 <==> m.downloads.Some? && m.downloads.value.client.Some?
    ensures |r| == 1 ==> r[0].target == VersionJar(homes, version) && r[0].sha1 == m.downloads.value.client.value.sha1
  {
    if m.downloads.Some? && m.downloads.value.client.Some? then
      var c := m.downloads.value.client.value;
      [Request(c.url.GetOr(""), c.sha1, VersionJar(homes, version), c.size)]
    else []
  }

  // ---------------------------------------------------------------------
  // Assets
  // ---------------------------------------------------------------------

  /** `hash.substring(0, 2) + "/" + hash`; None where `substring` throws. */
  function HashedPath(hash: Str): (r: Option<Str>)
    ensures r.None? <==> |hash| < 2
    ensures r.Some? ==> r.value == hash[..2] + "/" + hash
  {
    if |hash| < 2 then None else Some(hash[..2] + "/" + hash)
  }

  /** Where an asset is stored: under resources when mapped there, else
    * under assets; by its logical path when the index is virtual or mapped,
    * else under objects/ by its hash. */
  function AssetTarget(index: AssetIndex, homes: Homes, path: Str, hashed: Str): Str
  {
    var dir := if index.mapToResources then homes.resources else homes.assets;
    if index.isVirtual || index.mapToResources then Child(dir, path) else Child(dir, "objects/" + hashed)
  }

  function AssetRequest(index: AssetIndex, homes: Homes, path: Str, info: ObjectInfo): (r: Option<Request>)
    ensures r.None? <==> |info.hash| < 2
  {
    var hashed := HashedPath(info.hash);
    if hashed.None? then None
    else Some(Request(MinecraftRes + hashed.value, Some(info.hash), AssetTarget(index, homes, path, hashed.value), info.size))
  }

  /** Every item's request in order, or None when some item has none. */
  function AllRequests<T>(f: T -> Option<Request>, xs: seq<T>): (r: Option<seq<Request>>)
    ensures r.Some? ==> |r.value| == |xs|
    decreases |xs|
  {
    if |xs| == 0 then Some([])
    else
      var prev := AllRequests(f, xs[..|xs| - 1]);
      var q := f(xs[|xs| - 1]);
      if prev.None? || q.None? then None else Some(prev.value + [q.value])
  }

  lemma {:induction false} AllRequestsSpec<T>(f: T -> Option<Request>, xs: seq<T>)
    ensures AllRequests(f, xs).Some? <==> forall i :: 0 <= i < |xs| ==> f(xs[i]).Some?
    ensures AllRequests(f, xs).Some? ==> forall i :: 0 <= i < |xs| ==> Some(AllRequests(f, xs).value[i]) == f(xs[i])
    decreases |xs|
  {
    if |xs| > 0 {
      var init := xs[..|xs| - 1];
      AllRequestsSpec(f, init);
      assert forall i :: 0 <= i < |init| ==> init[i] == xs[i];
      var prev := AllRequests(f, init);
      var q := f(xs[|xs| - 1]);
      if prev.None? {
        var i :| 0 <= i < |init| && f(init[i]).None?;
        assert f(xs[i]).None?;
      } else if q.Some? {
        SnocParts(prev.value, q.value);
      }
    }
  }

  lemma SnocParts<T>(xs: seq<T>, x: T)
    ensures (xs + [x])[|xs|] == x
    ensures forall i :: 0 <= i < |xs| ==> (xs + [x])[i] == xs[i]
  {
  }

  /** `scheduleAssetDownloads`: one request per object; None when an
    * object's hash is too short to take its prefix. */
  function AssetRequests(index: Option<AssetIndex>, homes: Homes): Option<seq<Request>>
  {
    if index.None? then Some([])
    else AllRequests((o: (Str, ObjectInfo)) => AssetRequest(index.value, homes, o.0, o.1), index.value.objects)
  }

  /** The assets are scheduled one request each, in index order, exactly
    * when every hash is long enough. */
  lemma AssetRequestsInOrder(index: AssetIndex, homes: Homes)
    ensures AssetRequests(Some(index), homes).Some? <==> forall i :: 0 <= i < |index.objects| ==> |index.objects[i].1.hash| >= 2
    ensures AssetRequests(Some(index), homes).Some? ==>
      |AssetRequests(Some(index), homes).value| == |index.objects|
      && forall i :: 0 <= i < |index.objects| ==>
        Some(AssetRequests(Some(index), homes).value[i]) == AssetRequest(index, homes, index.objects[i].0, index.objects[i].1)
  {
    var f := (o: (Str, ObjectInfo)) => AssetRequest(index, homes, o.0, o.1);
    AllRequestsSpec(f, index.objects);
  }

  /** An asset is fetched from the resource server by its hashed path and
    * lands at its logical path when the index is virtual or mapped to
    * resources, else under objects/. */
  lemma AssetPlacement(index: AssetIndex, homes: Homes, path: Str, info: ObjectInfo)
    requires |info.hash| >= 2
    ensures var q := AssetRequest(index, homes, path, info).value;
      q.url == MinecraftRes + info.hash[..2] + "/" + info.hash
      && q.sha1 == Some(info.hash) && q.size == info.size
      && (index.mapToResources ==> q.target == Child(homes.resources, path))
      && (index.isVirtual && !index.mapToResources ==> q.target == Child(homes.assets, path))
      && (!index.isVirtual && !index.mapToResources ==> q.target == Child(homes.assets, "objects/" + info.hash[..2] + "/" + info.hash))
  {
    assert "objects/" + (info.hash[..2] + "/" + info.hash) == "objects/" + info.hash[..2] + "/" + info.hash;
    assert MinecraftRes + (info.hash[..2] + "/" + info.hash) == MinecraftRes + info.hash[..2] + "/" + info.hash;
  }

  // ---------------------------------------------------------------------
  // Libraries
  // ---------------------------------------------------------------------

  /** The repository a library without `downloads` is fetched from: its own
    * url with http upgraded to https, else Mojang's. */
  function FallbackRepo(lib: Library): Str
  {
    if lib.url.Some? then ReplaceAll(lib.url.value, "http://", "https://") else DefaultLibraryRepo
  }

  /** One library's request: none for LWJGL, for a library without a path,
    * or for one whose `downloads` has no artifact. */
  function LibraryRequest(lib: Library, homes: Homes): (r: Option<Request>)
    ensures r.Some? ==> !StartsWith(lib.name, "org.lwjgl") && DownloadUtils.ArtifactToPath(lib).Some?
    ensures r.Some? ==> lib.downloads.None? || lib.downloads.value.artifact.Some?
    ensures !StartsWith(lib.name, "org.lwjgl") && DownloadUtils.ArtifactToPath(lib).Some? && lib.downloads.None? ==>
      r == Some(Request(FallbackRepo(lib) + DownloadUtils.ArtifactToPath(lib).value, lib.sha1,
                        Child(homes.libraries, DownloadUtils.ArtifactToPath(lib).value), lib.size))
    ensures r.Some? && lib.downloads.Some? ==>
      var a := lib.downloads.value.artifact.value;
      r.value == Request(a.url.GetOr(""), a.sha1, Child(homes.libraries, DownloadUtils.ArtifactToPath(lib).value), a.size)
  {
    if StartsWith(lib.name, "org.lwjgl") then None
    else
      var path := DownloadUtils.ArtifactToPath(lib);
      if path.None? then None
      else if lib.downloads.Some? then
        if lib.downloads.value.artifact.None? then None
        else
          var a := lib.downloads.value.artifact.value;
          Some(Request(a.url.GetOr(""), a.sha1, Child(homes.libraries, path.value), a.size))
      else Some(Request(FallbackRepo(lib) + path.value, lib.sha1, Child(homes.libraries, path.value), lib.size))
  }

  /** The requests of the libraries, in order, skipping those with none. */
  function RequestsOf(libs: seq<Library>, homes: Homes): (r: seq<Request>)
    ensures |r| <= |libs|
    ensures forall q :: q in r <==> exists i :: 0 <= i < |libs| && LibraryRequest(libs[i], homes) == Some(q)
    decreases |libs|
  {
    if |libs| == 0 then []
    else
      var rest := RequestsOf(libs[1..], homes);
      assert forall i :: 0 <= i < |libs| - 1 ==> libs[1..][i] == libs[i + 1];
      var q := LibraryRequest(libs[0], homes);
      (if q.Some? then [q.value] else []) + rest
  }

  /** `scheduleLibraryDownloads`: the libraries after their Android
    * rewrites. */
  function LibraryRequests(m: Manifest, homes: Homes): seq<Request>
  {
    RequestsOf(DownloadUtils.ProcessLibraries(m.libraries), homes)
  }

  /** No LWJGL library is ever fetched, and every fetched library is one of
    * the manifest's after its rewrite. */
  lemma LibrariesScheduled(m: Manifest, homes: Homes)
    ensures forall q :: q in LibraryRequests(m, homes) ==>
      exists i :: 0 <= i < |m.libraries| && LibraryRequest(DownloadUtils.ProcessLibrary(m.libraries[i]), homes) == Some(q)
        && !StartsWith(DownloadUtils.ProcessLibrary(m.libraries[i]).name, "org.lwjgl")
  {
  }

  // ---------------------------------------------------------------------
  // A whole version
  // ---------------------------------------------------------------------

  /** The downloads for one version: its client jar, its assets, its
    * libraries; None when an asset hash is malformed. */
  function VersionRequests(m: Manifest, index: Option<AssetIndex>, homes: Homes, version: Str): (r: Option<seq<Request>>)
    ensures r.None? <==> AssetRequests(index, homes).None?
  {
    var assets := AssetRequests(index, homes);
    if assets.None? then None
    else Some(ClientJarRequests(m, homes, version) + assets.value + LibraryRequests(m, homes))
  }

  /** The manifest and asset index read for a version. */
  datatype VersionFiles = VersionFiles(manifest: Manifest, index: Option<AssetIndex>)

  /** `progressDownloadTasks` for the custom name; when it differs from the
    * base version and the base version is listed, the base version's files
    * are planned too. */
  function PlanDownloads(customName: Str, custom: VersionFiles, version: Str, base: Option<VersionFiles>, homes: Homes): (r: Option<Plan>)
    ensures customName == version ==> r == (match VersionRequests(custom.manifest, custom.index, homes, customName)
                                            case None => None
                                            case Some(qs) => Some(ScheduleAll(EmptyPlan, qs)))
  {
    var first := VersionRequests(custom.manifest, custom.index, homes, customName);
    if first.None? then None
    else if customName == version || base.None? then Some(ScheduleAll(EmptyPlan, first.value))
    else
      var second := VersionRequests(base.value.manifest, base.value.index, homes, version);
      if second.None? then None else Some(ScheduleAll(EmptyPlan, first.value + second.value))
  }

  /** With a custom name, the base version's client jar is planned after
    * the custom version's files, into the base version's own folder. */
  lemma BaseVersionPlanned(customName: Str, custom: VersionFiles, version: Str, base: VersionFiles, homes: Homes)
    requires customName != version
    requires VersionRequests(custom.manifest, custom.index, homes, customName).Some?
    requires VersionRequests(base.manifest, base.index, homes, version).Some?
    requires base.manifest.downloads.Some? && base.manifest.downloads.value.client.Some?
    ensures var p := PlanDownloads(customName, custom, version, Some(base), homes);
      p.Some? && exists i :: 0 <= i < |p.value.tasks| && p.value.tasks[i].target == VersionJar(homes, version)
  {
    var first := VersionRequests(custom.manifest, custom.index, homes, customName).value;
    var second := VersionRequests(base.manifest, base.index, homes, version).value;
    ScheduleAllCounts(EmptyPlan, first + second);
    assert (first + second)[|first|] == second[0];
    assert second[0].target == VersionJar(homes, version);
  }

  // ---------------------------------------------------------------------
  // Running a task
  // ---------------------------------------------------------------------

  /** What a task does with its target before fetching. */
  datatype FileCheck = Skip | Fetch | DeleteAndFetch

  /** `verifySha1`: without a hash always fetch; an existing file is kept
    * when verification is off or its hash matches, else deleted. */
  function CheckExisting(sha1: Option<Str>, targetExists: bool, verifyIntegrity: bool, hashMatches: bool): (r: FileCheck)
  {
    if sha1.None? then Fetch
    else if targetExists then (if !verifyIntegrity || hashMatches then Skip else DeleteAndFetch)
    else Fetch
  }

  /** A file is skipped exactly when it exists, has a known hash, and
    * either verification is off or the hash matches; a file is deleted
    * only when verification is on and its hash differs. */
  lemma CheckExistingCases(sha1: Option<Str>, targetExists: bool, verifyIntegrity: bool, hashMatches: bool)
    ensures CheckExisting(sha1, targetExists, verifyIntegrity, hashMatches) == Skip <==>
      sha1.Some? && targetExists && (!verifyIntegrity || hashMatches)
    ensures CheckExisting(sha1, targetExists, verifyIntegrity, hashMatches) == DeleteAndFetch <==>
      sha1.Some? && targetExists && verifyIntegrity && !hashMatches
  {
  }

  /** `ensureFileCopy`: the version jar is copied to the custom name only
    * when the two differ and the copy is not there yet. */
  predicate CopyNeeded(source: Str, target: Str, targetExists: bool)
  {
    source != target && !targetExists
  }
}
