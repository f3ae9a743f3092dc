/** The JSON documents the launcher reads, as plain records: a version's
  * manifest (`client.json`), Mojang's version list and an asset index.
  * Only the fields the launch and download planning read are kept; an
  * absent JSON field is `None`. */
module Models {
  import opened Wrappers
  import opened KotlinText

  /** Bounds of the JVM `long` that artifact and file sizes use. */
  const LongMin: int := -0x8000_0000_0000_0000
  const LongMax: int := 0x7FFF_FFFF_FFFF_FFFF

  predicate InLong(n: int) { LongMin <= n <= LongMax }

  // ---------------------------------------------------------------------
  // Version manifest (client.json)
  // ---------------------------------------------------------------------

  /** A downloadable file of a library; `size` is a `long`. */
  datatype Artifact = Artifact(path: Option<Str>, sha1: Option<Str>, size: int, url: Option<Str>)

  /** What a freshly constructed artifact holds: nothing but a zero size. */
  const BlankArtifact := Artifact(None, None, 0, None)

  datatype LibraryDownloads = LibraryDownloads(artifact: Option<Artifact>)

  datatype Os = Os(name: Option<Str>, arch: Option<Str>)

  /** A platform rule; the launcher reads only its action and os. */
  datatype Rule = Rule(action: Option<Str>, os: Option<Os>)

  datatype Library = Library(
    downloads: Option<LibraryDownloads>,
    name: Str,
    rules: Option<seq<Rule>>,
    url: Option<Str>,
    sha1: Option<Str>,
    size: int)

  /** An entry of `arguments.game` or `arguments.jvm`: a plain string, or a
    * JSON object (a rule-guarded value) that is only ever compared for
    * equality and never read. */
  datatype Arg = Text(text: Str) | Structured(rules: seq<Rule>, values: seq<Str>)

  datatype Arguments = Arguments(game: Option<seq<Arg>>, jvm: Option<seq<Arg>>)

  datatype AssetIndexRef = AssetIndexRef(id: Option<Str>, sha1: Option<Str>, size: int, totalSize: int, url: Option<Str>)

  /** One of the client/server jars or mapping files. */
  datatype FileRef = FileRef(sha1: Option<Str>, size: int, url: Option<Str>)

  datatype Downloads = Downloads(
    client: Option<FileRef>,
    clientMappings: Option<FileRef>,
    server: Option<FileRef>,
    serverMappings: Option<FileRef>)

  /** `version` is the field LabyMod writes instead of `majorVersion`. */
  datatype JavaVersion = JavaVersion(component: Option<Str>, majorVersion: int, version: int)

  datatype Manifest = Manifest(
    arguments: Option<Arguments>,
    assetIndex: Option<AssetIndexRef>,
    assets: Option<Str>,
    downloads: Option<Downloads>,
    id: Option<Str>,
    javaVersion: Option<JavaVersion>,
    libraries: seq<Library>,
    mainClass: Option<Str>,
    minecraftArguments: Option<Str>,
    releaseTime: Option<Str>,
    time: Option<Str>,
    versionType: Option<Str>)

  /** The artifact of a library, when it declares one. */
  function ArtifactOf(lib: Library): Option<Artifact>
  {
    if lib.downloads.Some? then lib.downloads.value.artifact else None
  }

  // ---------------------------------------------------------------------
  // Mojang's version list
  // ---------------------------------------------------------------------

  datatype Latest = Latest(release: Option<Str>, snapshot: Option<Str>)

  datatype VersionEntry = VersionEntry(
    id: Str,
    versionType: Str,
    url: Str,
    time: Str,
    releaseTime: Str,
    sha1: Str,
    complianceLevel: int)

  datatype VersionList = VersionList(latest: Option<Latest>, versions: seq<VersionEntry>)

  // ---------------------------------------------------------------------
  // Asset index
  // ---------------------------------------------------------------------

  /** An asset object; its `size` is a 32-bit `int`. */
  datatype ObjectInfo = ObjectInfo(hash: Str, size: int)

  /** The objects in the order the index lists them, by logical path. */
  datatype AssetIndex = AssetIndex(mapToResources: bool, objects: seq<(Str, ObjectInfo)>, isVirtual: bool)
}
