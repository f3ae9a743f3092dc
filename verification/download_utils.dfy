/** Maven coordinates of libraries, the path a library's jar is stored
  * under, and the fixed rewrites of a few libraries known to break on
  * Android (JNA, OSHI, ASM). */
module DownloadUtils {
  import opened Wrappers
  import opened KotlinText
  import opened Models

  // ---------------------------------------------------------------------
  // Coordinates and paths
  // ---------------------------------------------------------------------

  /** `group:artifact:version[:classifier]`. */
  datatype Coordinate = Coordinate(group: Str, artifact: Str, version: Str, classifier: Option<Str>)

  function CoordinateParts(c: Coordinate): seq<Str>
  {
    [c.group, c.artifact, c.version] + (if c.classifier.Some? then [c.classifier.value] else [])
  }

  /** No component contains the ':' that separates them. */
  predicate ValidCoordinate(c: Coordinate)
  {
    forall i :: 0 <= i < |CoordinateParts(c)| ==> ':' !in CoordinateParts(c)[i]
  }

  /** The library name that spells a coordinate. */
  function CoordinateName(c: Coordinate): Str
  {
    JoinWith(CoordinateParts(c), ":")
  }

  /** Reads a library name: at least three ':'-separated parts, the fourth
    * (if any) being the classifier and the rest ignored. */
  function CoordinateOf(name: Str): (r: Option<Coordinate>)
    ensures r.None? <==> |Split(name, ':')| < 3
    ensures r.Some? ==> r.value.version == Split(name, ':')[2]
  {
    var parts := Split(name, ':');
    if |parts| < 3 then None
    else Some(Coordinate(parts[0], parts[1], parts[2], if |parts| > 3 then Some(parts[3]) else None))
  }

  /** Reading back the name of a coordinate gives the coordinate. */
  lemma CoordinateRoundTrip(c: Coordinate)
    requires ValidCoordinate(c)
    ensures CoordinateOf(CoordinateName(c)) == Some(c)
  {
    JoinSplit(CoordinateParts(c), ':');
  }

  /** The repository layout of a coordinate:
    * `group/with/slashes/artifact/version/artifact-version[-classifier].jar`. */
  function MavenPath(c: Coordinate): Str
  {
    ReplaceChar(c.group, '.', '/') + "/" + c.artifact + "/" + c.version + "/" + JarName(c)
  }

  /** `artifact-version[-classifier].jar`. */
  function JarName(c: Coordinate): Str
  {
    c.artifact + "-" + c.version + (if c.classifier.Some? then "-" + c.classifier.value else "") + ".jar"
  }

  lemma JarNameFree(c: Coordinate, d: char)
    requires d != '-' && d !in ".jar"
    requires d !in c.artifact && d !in c.version
    requires c.classifier.Some? ==> d !in c.classifier.value
    ensures d !in JarName(c)
  {
    var cl := if c.classifier.Some? then "-" + c.classifier.value else "";
    assert d !in cl;
    assert JarName(c) == c.artifact + "-" + c.version + cl + ".jar";
  }

  /** Where a library's jar lives relative to the libraries folder: the
    * declared artifact path verbatim, else the Maven layout of its name,
    * else nothing for a name with fewer than three parts. */
  function ArtifactToPath(lib: Library): (r: Option<Str>)
    ensures ArtifactOf(lib).Some? && ArtifactOf(lib).value.path.Some? ==>
      r == ArtifactOf(lib).value.path
    ensures r.None? <==>
      (ArtifactOf(lib).None? || ArtifactOf(lib).value.path.None?) && |Split(lib.name, ':')| < 3
    ensures r.Some? && (ArtifactOf(lib).None? || ArtifactOf(lib).value.path.None?) ==>
      EndsWith(r.value, ".jar")
  {
    if ArtifactOf(lib).Some? && ArtifactOf(lib).value.path.Some? then ArtifactOf(lib).value.path
    else
      var c := CoordinateOf(lib.name);
      if c.None? then None else Some(MavenPath(c.value))
  }

  /** A library named by a coordinate, without a declared path, is stored
    * under the Maven layout of that coordinate. */
  lemma CoordinatePath(c: Coordinate, lib: Library)
    requires ValidCoordinate(c)
    requires lib.name == CoordinateName(c)
    requires ArtifactOf(lib).None? || ArtifactOf(lib).value.path.None?
    ensures ArtifactToPath(lib) == Some(MavenPath(c))
  {
    CoordinateRoundTrip(c);
  }

  /** The layout keeps the coordinate readable: with slash-free parts, the
    * last three path segments are the artifact, the version and the jar
    * named after both. */
  lemma MavenPathSegments(c: Coordinate)
    requires '/' !in c.artifact && '/' !in c.version
    requires c.classifier.Some? ==> '/' !in c.classifier.value
    ensures var segs := Split(MavenPath(c), '/');
      |segs| >= 4 && segs[|segs| - 3] == c.artifact && segs[|segs| - 2] == c.version
      && segs[|segs| - 1] == JarName(c)
  {
    var g := ReplaceChar(c.group, '.', '/');
    JarNameFree(c, '/');
    assert MavenPath(c) == g + ['/'] + c.artifact + ['/'] + c.version + ['/'] + JarName(c);
    SplitLastThree(g, c.artifact, c.version, JarName(c), '/');
  }

  /** The last three parts of a text ending in three delimiter-free pieces. */
  lemma SplitLastThree(g: Str, a: Str, v: Str, j: Str, d: char)
    requires d !in a && d !in v && d !in j
    ensures var segs := Split(g + [d] + a + [d] + v + [d] + j, d);
      |segs| >= 4 && segs[|segs| - 3] == a && segs[|segs| - 2] == v && segs[|segs| - 1] == j
  {
    assert g + [d] + a + [d] + v + [d] + j == g + [d] + (a + [d] + v + [d] + j);
    SplitAppend(g, a + [d] + v + [d] + j, d);
    SplitThree(a, v, j, d);
  }

  // ---------------------------------------------------------------------
  // Library rewrites
  // ---------------------------------------------------------------------

  const JnaPrefix: Str := "net.java.dev.jna:jna:"
  const OshiPrefix: Str := "com.github.oshi:oshi-core:"
  const AsmPrefix: Str := "org.ow2.asm:asm-all:"

  const JnaName: Str := "net.java.dev.jna:jna:5.13.0"
  const JnaPath: Str := "net/java/dev/jna/jna/5.13.0/jna-5.13.0.jar"
  const JnaSha1: Str := "1200e7ebeedbe0d10062093f32925a912020e747"
  const JnaUrl: Str := "https://repo1.maven.org/maven2/net/java/dev/jna/jna/5.13.0/jna-5.13.0.jar"

  const OshiName: Str := "com.github.oshi:oshi-core:6.3.0"
  const OshiPath: Str := "com/github/oshi/oshi-core/6.3.0/oshi-core-6.3.0.jar"
  const OshiSha1: Str := "9e98cf55be371cafdb9c70c35d04ec2a8c2b42ac"
  const OshiUrl: Str := "https://repo1.maven.org/maven2/com/github/oshi/oshi-core/6.3.0/oshi-core-6.3.0.jar"

  const AsmName: Str := "org.ow2.asm:asm-all:5.0.4"
  const AsmPath: Str := "org/ow2/asm/asm-all/5.0.4/asm-all-5.0.4.jar"
  const AsmSha1: Str := "e6244859997b3d4237a552669279780876228909"
  const AsmUrl: Str := "https://repo1.maven.org/maven2/org/ow2/asm/asm-all/5.0.4/asm-all-5.0.4.jar"

  /** The `n`-th '.'-separated part of a version read as an `Int`; a
    * missing or non-numeric part reads as 0. */
  function VersionPart(version: Str, n: nat): (v: int)
    ensures InInt(v)
  {
    var parts := Split(version, '.');
    if n < |parts| then ToIntOrNull(parts[n]).GetOr(0) else 0
  }

  /** Gives the library a download entry with an artifact if it has none,
    * leaving everything else as it was. */
  function CreateLibraryInfo(lib: Library): (r: Library)
    ensures ArtifactOf(r).Some?
    ensures ArtifactOf(lib).Some? ==> r == lib
    ensures ArtifactOf(lib).None? ==> ArtifactOf(r) == Some(BlankArtifact)
    ensures r.name == lib.name && r.rules == lib.rules && r.url == lib.url
    ensures r.sha1 == lib.sha1 && r.size == lib.size
  {
    if ArtifactOf(lib).Some? then lib
    else lib.(downloads := Some(LibraryDownloads(Some(BlankArtifact))))
  }

  /** Renames a library and points its artifact at a fixed file; the
    * artifact's size is kept (0 for a created one). */
  function UpdateLibrary(lib: Library, name: Str, path: Str, sha1: Str, url: Str): (r: Library)
    ensures r.name == name
    ensures ArtifactOf(r).Some? && ArtifactToPath(r) == Some(path)
    ensures ArtifactOf(r).value.path == Some(path) && ArtifactOf(r).value.sha1 == Some(sha1)
    ensures ArtifactOf(r).value.url == Some(url)
    ensures ArtifactOf(r).value.size == (if ArtifactOf(lib).Some? then ArtifactOf(lib).value.size else 0)
    ensures r.rules == lib.rules && r.url == lib.url && r.sha1 == lib.sha1 && r.size == lib.size
  {
    var l := CreateLibraryInfo(lib);
    var a := ArtifactOf(l).value;
    l.(name := name,
       downloads := Some(LibraryDownloads(Some(a.(path := Some(path), sha1 := Some(sha1), url := Some(url))))))
  }

  /** The test the JNA rewrite uses to leave a library alone, as written:
    * both the major part at least 5 and the minor part at least 13. */
  predicate JnaKeptAsWritten(major: int, minor: int)
  {
    major >= 5 && minor >= 13
  }

  /** The test the code means: version 5.13 or later. */
  predicate JnaKept(major: int, minor: int)
  {
    major > 5 || (major == 5 && minor >= 13)
  }

  /** One library's rewrite, with the JNA test chosen by `lexicographic`.
    * A name whose version part is missing is left alone, and so is any
    * library other than JNA, OSHI and ASM. */
  function PatchLibrary(lib: Library, lexicographic: bool): Library
  {
    var c := CoordinateOf(lib.name);
    if c.None? then lib
    else
      var major := VersionPart(c.value.version, 0);
      var minor := VersionPart(c.value.version, 1);
      if StartsWith(lib.name, JnaPrefix) then
        if (if lexicographic then JnaKept(major, minor) else JnaKeptAsWritten(major, minor)) then lib
        else UpdateLibrary(lib, JnaName, JnaPath, JnaSha1, JnaUrl)
      else if StartsWith(lib.name, OshiPrefix) then
        if major != 6 || minor != 2 then lib
        else UpdateLibrary(lib, OshiName, OshiPath, OshiSha1, OshiUrl)
      else if StartsWith(lib.name, AsmPrefix) then
        if major >= 5 then lib
        else UpdateLibrary(lib, AsmName, AsmPath, AsmSha1, AsmUrl).(url := None)
      else lib
  }

  /** The major and minor version parts of a library name. */
  function MajorOf(name: Str): int
  {
    var c := CoordinateOf(name);
    if c.None? then 0 else VersionPart(c.value.version, 0)
  }

  function MinorOf(name: Str): int
  {
    var c := CoordinateOf(name);
    if c.None? then 0 else VersionPart(c.value.version, 1)
  }

  /** A library as the launcher rewrites it before use. Only a library
    * that is rewritten changes, and a rewrite keeps its rules, its own
    * checksum and size, and the size of its artifact. */
  function ProcessLibrary(lib: Library): (r: Library)
    ensures |Split(lib.name, ':')| < 3 ==> r == lib
    ensures (!StartsWith(lib.name, JnaPrefix) && !StartsWith(lib.name, OshiPrefix)
             && !StartsWith(lib.name, AsmPrefix)) ==> r == lib
    ensures r != lib ==>
      (r.rules == lib.rules && r.sha1 == lib.sha1 && r.size == lib.size
       && ArtifactOf(r).Some?
       && ArtifactOf(r).value.size == (if ArtifactOf(lib).Some? then ArtifactOf(lib).value.size else 0))
  {
    PatchLibrary(lib, true)
  }

  /** JNA below 5.13 becomes 5.13.0; 5.13 and later are kept. */
  lemma JnaRewrite(lib: Library)
    requires StartsWith(lib.name, JnaPrefix)
    ensures JnaKept(MajorOf(lib.name), MinorOf(lib.name)) ==> ProcessLibrary(lib) == lib
    ensures !JnaKept(MajorOf(lib.name), MinorOf(lib.name)) ==>
      var r := ProcessLibrary(lib);
      r.name == JnaName && ArtifactToPath(r) == Some(JnaPath)
      && ArtifactOf(r).Some? && ArtifactOf(r).value.sha1 == Some(JnaSha1) && ArtifactOf(r).value.url == Some(JnaUrl)
  {
    PrefixHasVersion(lib.name);
  }

  /** Only oshi-core 6.2 is rewritten, to 6.3.0. */
  lemma OshiRewrite(lib: Library)
    requires StartsWith(lib.name, OshiPrefix)
    ensures MajorOf(lib.name) != 6 || MinorOf(lib.name) != 2 ==> ProcessLibrary(lib) == lib
    ensures MajorOf(lib.name) == 6 && MinorOf(lib.name) == 2 ==>
      var r := ProcessLibrary(lib);
      r.name == OshiName && ArtifactToPath(r) == Some(OshiPath)
      && ArtifactOf(r).Some? && ArtifactOf(r).value.sha1 == Some(OshiSha1) && ArtifactOf(r).value.url == Some(OshiUrl)
  {
    if MajorOf(lib.name) == 6 && MinorOf(lib.name) == 2 {
      OshiBranch(lib);
    } else {
      OshiKept(lib);
    }
  }

  lemma OshiKept(lib: Library)
    requires StartsWith(lib.name, OshiPrefix)
    requires MajorOf(lib.name) != 6 || MinorOf(lib.name) != 2
    ensures ProcessLibrary(lib) == lib
  {
    PrefixesDistinct(lib.name);
    PrefixHasVersion(lib.name);
  }

  lemma OshiBranch(lib: Library)
    requires StartsWith(lib.name, OshiPrefix)
    requires MajorOf(lib.name) == 6 && MinorOf(lib.name) == 2
    ensures ProcessLibrary(lib) == UpdateLibrary(lib, OshiName, OshiPath, OshiSha1, OshiUrl)
  {
    PrefixesDistinct(lib.name);
    PrefixHasVersion(lib.name);
  }

  /** asm-all below 5 becomes 5.0.4 and loses its repository url. */
  lemma AsmRewrite(lib: Library)
    requires StartsWith(lib.name, AsmPrefix)
    ensures MajorOf(lib.name) >= 5 ==> ProcessLibrary(lib) == lib
    ensures MajorOf(lib.name) < 5 ==>
      var r := ProcessLibrary(lib);
      r.name == AsmName && r.url.None? && ArtifactToPath(r) == Some(AsmPath)
      && ArtifactOf(r).Some? && ArtifactOf(r).value.sha1 == Some(AsmSha1) && ArtifactOf(r).value.url == Some(AsmUrl)
  {
    if MajorOf(lib.name) < 5 {
      AsmBranch(lib);
    } else {
      PrefixesDistinct(lib.name);
      PrefixHasVersion(lib.name);
    }
  }

  lemma AsmBranch(lib: Library)
    requires StartsWith(lib.name, AsmPrefix)
    requires MajorOf(lib.name) < 5
    ensures ProcessLibrary(lib) == UpdateLibrary(lib, AsmName, AsmPath, AsmSha1, AsmUrl).(url := None)
  {
    PrefixesDistinct(lib.name);
    PrefixHasVersion(lib.name);
    AsmNotJnaOrOshi(lib.name);
  }

  lemma AsmNotJnaOrOshi(n: Str)
    requires StartsWith(n, AsmPrefix)
    ensures !StartsWith(n, JnaPrefix) && !StartsWith(n, OshiPrefix)
  {
    assert n[0] == 'o';
  }

  /** The same rewrite with the JNA test as the source writes it. */
  function ProcessLibraryAsWritten(lib: Library): (r: Library)
    ensures !StartsWith(lib.name, JnaPrefix) ==> r == ProcessLibrary(lib)
    ensures StartsWith(lib.name, JnaPrefix) ==>
      (r == lib <==> JnaKeptAsWritten(MajorOf(lib.name), MinorOf(lib.name)))
  {
    PrefixHasVersion(lib.name);
    RenamedToJnaDiffers(lib.name);
    PatchLibrary(lib, false)
  }

  /** Every library of a manifest, rewritten in place. */
  function ProcessLibraries(libs: seq<Library>): (r: seq<Library>)
    ensures |r| == |libs|
    ensures forall i :: 0 <= i < |libs| ==> r[i] == ProcessLibrary(libs[i])
  {
    seq(|libs|, i requires 0 <= i < |libs| => ProcessLibrary(libs[i]))
  }

  // ---------------------------------------------------------------------
  // Facts about the fixed names
  // ---------------------------------------------------------------------

  /** No name starts with two of the three prefixes. */
  lemma PrefixesDistinct(n: Str)
    ensures StartsWith(n, JnaPrefix) ==> !StartsWith(n, OshiPrefix) && !StartsWith(n, AsmPrefix)
    ensures StartsWith(n, OshiPrefix) ==> !StartsWith(n, AsmPrefix)
  {
    if StartsWith(n, JnaPrefix) {
      assert n[0] == 'n';
    }
    if StartsWith(n, OshiPrefix) {
      assert n[0] == 'c';
    }
  }

  /** A name behind one of the prefixes has at least three parts. */
  lemma PrefixHasVersion(n: Str)
    ensures StartsWith(n, JnaPrefix) || StartsWith(n, OshiPrefix) || StartsWith(n, AsmPrefix) ==>
      |Split(n, ':')| >= 3
  {
    if StartsWith(n, JnaPrefix) {
      JnaPrefixParts();
      PrefixThreeParts(n, "net.java.dev.jna", "jna");
    } else if StartsWith(n, OshiPrefix) {
      OshiPrefixParts();
      PrefixThreeParts(n, "com.github.oshi", "oshi-core");
    } else if StartsWith(n, AsmPrefix) {
      AsmPrefixParts();
      PrefixThreeParts(n, "org.ow2.asm", "asm-all");
    }
  }

  lemma JnaPrefixParts()
    ensures JnaPrefix == "net.java.dev.jna" + [':'] + "jna" + [':']
  {
  }

  lemma OshiPrefixParts()
    ensures OshiPrefix == "com.github.oshi" + [':'] + "oshi-core" + [':']
  {
  }

  lemma AsmPrefixParts()
    ensures AsmPrefix == "org.ow2.asm" + [':'] + "asm-all" + [':']
  {
  }

  /** A name that starts `g:a:` has at least three parts. */
  lemma PrefixThreeParts(n: Str, g: Str, a: Str)
    requires StartsWith(n, g + [':'] + a + [':'])
    ensures |Split(n, ':')| >= 3
  {
    var k := |g| + |a| + 2;
    var rest := n[k..];
    assert n == n[..k] + rest;
    assert n[..k] == g + [':'] + a + [':'];
    assert n == g + [':'] + (a + [':'] + rest);
    ThreeParts(g, a, rest);
  }

  lemma ThreeParts(a: Str, b: Str, rest: Str)
    ensures |Split(a + [':'] + (b + [':'] + rest), ':')| >= 3
  {
    SplitAppend(a, b + [':'] + rest, ':');
    SplitAppend(b, rest, ':');
  }

  /** `x.y.z` with plain digit parts reads back as major `x`, minor `y`. */
  lemma DottedVersion(version: Str, x: Str, y: Str, z: Str)
    requires version == x + ['.'] + (y + ['.'] + z)
    requires '.' !in x && '.' !in y && '.' !in z
    ensures VersionPart(version, 0) == ToIntOrNull(x).GetOr(0)
    ensures VersionPart(version, 1) == ToIntOrNull(y).GetOr(0)
  {
    SplitAppend(x, y + ['.'] + z, '.');
    SplitAppend(y, z, '.');
    SplitWhole(x, '.');
    SplitWhole(y, '.');
    SplitWhole(z, '.');
  }

  /** The version part of `group:artifact:version`. */
  lemma NamedVersion(name: Str, g: Str, a: Str, v: Str)
    requires name == g + [':'] + (a + [':'] + v)
    requires ':' !in g && ':' !in a && ':' !in v
    ensures CoordinateOf(name) == Some(Coordinate(g, a, v, None))
  {
    SplitAppend(g, a + [':'] + v, ':');
    SplitAppend(a, v, ':');
    SplitWhole(g, ':');
    SplitWhole(a, ':');
    SplitWhole(v, ':');
  }

  lemma ReadFive()
    ensures ToIntOrNull("5") == Some(5)
  {
    assert "5"[0] != '-' && "5"[0] != '+';
    assert DigitsValue("5") == DigitsValue("") * 10 + 5;
  }

  lemma ReadThirteen()
    ensures ToIntOrNull("13") == Some(13)
  {
    assert "13"[0] != '-' && "13"[0] != '+';
    assert "13"[..1] == "1";
    assert DigitsValue("1") == DigitsValue("") * 10 + 1;
    assert DigitsValue("13") == DigitsValue("1") * 10 + 3;
  }

  lemma ReadSix()
    ensures ToIntOrNull("6") == Some(6)
  {
    assert "6"[0] != '-' && "6"[0] != '+';
    assert DigitsValue("6") == DigitsValue("") * 10 + 6;
  }

  lemma ReadThree()
    ensures ToIntOrNull("3") == Some(3)
  {
    assert "3"[0] != '-' && "3"[0] != '+';
    assert DigitsValue("3") == DigitsValue("") * 10 + 3;
  }

  lemma ReadZero()
    ensures ToIntOrNull("0") == Some(0)
  {
    assert "0"[0] != '-' && "0"[0] != '+';
    assert DigitsValue("0") == DigitsValue("") * 10 + 0;
  }

  /** The JNA the launcher installs passes its own test, in both forms. */
  lemma JnaNameIsCurrent()
    ensures StartsWith(JnaName, JnaPrefix)
    ensures MajorOf(JnaName) == 5 && MinorOf(JnaName) == 13
  {
    JnaNameParts();
    JnaVersionParts();
  }

  lemma JnaNameParts()
    ensures StartsWith(JnaName, JnaPrefix)
    ensures CoordinateOf(JnaName) == Some(Coordinate("net.java.dev.jna", "jna", "5.13.0", None))
  {
    JnaNameSpelled();
    NamedVersion(JnaName, "net.java.dev.jna", "jna", "5.13.0");
  }

  lemma JnaVersionParts()
    ensures VersionPart("5.13.0", 0) == 5 && VersionPart("5.13.0", 1) == 13
  {
    VersionSpelled("5.13.0", "5", "13", "0");
    ReadFive();
    ReadThirteen();
  }

  lemma JnaNameSpelled()
    ensures JnaName == "net.java.dev.jna" + [':'] + ("jna" + [':'] + "5.13.0")
    ensures ':' !in "net.java.dev.jna" && ':' !in "jna" && ':' !in "5.13.0"
    ensures StartsWith(JnaName, JnaPrefix)
  {
  }

  lemma OshiNameIsCurrent()
    ensures StartsWith(OshiName, OshiPrefix)
    ensures MajorOf(OshiName) == 6 && MinorOf(OshiName) == 3
  {
    OshiNameParts();
    OshiVersionParts();
  }

  lemma OshiNameParts()
    ensures StartsWith(OshiName, OshiPrefix)
    ensures CoordinateOf(OshiName) == Some(Coordinate("com.github.oshi", "oshi-core", "6.3.0", None))
  {
    OshiNameSpelled();
    NamedVersion(OshiName, "com.github.oshi", "oshi-core", "6.3.0");
  }

  lemma OshiVersionParts()
    ensures VersionPart("6.3.0", 0) == 6 && VersionPart("6.3.0", 1) == 3
  {
    VersionSpelled("6.3.0", "6", "3", "0");
    ReadSix();
    ReadThree();
  }

  lemma OshiNameSpelled()
    ensures OshiName == "com.github.oshi" + [':'] + ("oshi-core" + [':'] + "6.3.0")
    ensures ':' !in "com.github.oshi" && ':' !in "oshi-core" && ':' !in "6.3.0"
    ensures StartsWith(OshiName, OshiPrefix)
  {
  }

  lemma AsmNameIsCurrent()
    ensures StartsWith(AsmName, AsmPrefix)
    ensures MajorOf(AsmName) == 5
  {
    AsmNameParts();
    AsmVersionParts();
  }

  lemma AsmNameParts()
    ensures StartsWith(AsmName, AsmPrefix)
    ensures CoordinateOf(AsmName) == Some(Coordinate("org.ow2.asm", "asm-all", "5.0.4", None))
  {
    AsmNameSpelled();
    NamedVersion(AsmName, "org.ow2.asm", "asm-all", "5.0.4");
  }

  lemma AsmVersionParts()
    ensures VersionPart("5.0.4", 0) == 5
  {
    VersionSpelled("5.0.4", "5", "0", "4");
    ReadFive();
  }

  lemma AsmNameSpelled()
    ensures AsmName == "org.ow2.asm" + [':'] + ("asm-all" + [':'] + "5.0.4")
    ensures ':' !in "org.ow2.asm" && ':' !in "asm-all" && ':' !in "5.0.4"
    ensures StartsWith(AsmName, AsmPrefix)
  {
  }

  /** A short literal version `x.y.z` read part by part. */
  lemma VersionSpelled(v: Str, x: Str, y: Str, z: Str)
    requires v == x + ['.'] + (y + ['.'] + z)
    requires |x| <= 2 && |y| <= 2 && |z| <= 2
    requires forall i :: 0 <= i < |x| ==> IsDigit(x[i])
    requires forall i :: 0 <= i < |y| ==> IsDigit(y[i])
    requires forall i :: 0 <= i < |z| ==> IsDigit(z[i])
    ensures VersionPart(v, 0) == ToIntOrNull(x).GetOr(0)
    ensures VersionPart(v, 1) == ToIntOrNull(y).GetOr(0)
  {
    assert '.' !in x && '.' !in y && '.' !in z;
    DottedVersion(v, x, y, z);
  }

  /** A JNA library the as-written test rejects is never already the
    * installed one, so the rewrite changes it. */
  lemma RenamedToJnaDiffers(name: Str)
    ensures !JnaKeptAsWritten(MajorOf(name), MinorOf(name)) ==> name != JnaName
  {
    JnaNameIsCurrent();
  }

  /** Rewriting twice is rewriting once: every replacement is a version
    * the rewrite itself keeps. */
  lemma ProcessIdempotent(lib: Library)
    ensures ProcessLibrary(ProcessLibrary(lib)) == ProcessLibrary(lib)
  {
    var r := ProcessLibrary(lib);
    PrefixesDistinct(lib.name);
    PrefixesDistinct(r.name);
    if r != lib {
      if r.name == JnaName {
        JnaNameIsCurrent();
      } else if r.name == OshiName {
        OshiNameIsCurrent();
      } else {
        AsmNameIsCurrent();
      }
    }
  }

  // ---------------------------------------------------------------------
  // The JNA downgrade
  // ---------------------------------------------------------------------

  /** A JNA release newer than the one the launcher installs. */
  const JnaSix: Str := "net.java.dev.jna:jna:6.0.0"

  lemma JnaSixSpelled()
    ensures JnaSix == "net.java.dev.jna" + [':'] + ("jna" + [':'] + "6.0.0")
    ensures ':' !in "net.java.dev.jna" && ':' !in "jna" && ':' !in "6.0.0"
    ensures StartsWith(JnaSix, JnaPrefix)
  {
  }

  lemma JnaSixParts()
    ensures StartsWith(JnaSix, JnaPrefix)
    ensures MajorOf(JnaSix) == 6 && MinorOf(JnaSix) == 0
  {
    JnaSixCoordinate();
    SixVersionParts();
  }

  lemma JnaSixCoordinate()
    ensures StartsWith(JnaSix, JnaPrefix)
    ensures CoordinateOf(JnaSix) == Some(Coordinate("net.java.dev.jna", "jna", "6.0.0", None))
  {
    JnaSixSpelled();
    NamedVersion(JnaSix, "net.java.dev.jna", "jna", "6.0.0");
  }

  lemma SixVersionParts()
    ensures VersionPart("6.0.0", 0) == 6 && VersionPart("6.0.0", 1) == 0
  {
    VersionSpelled("6.0.0", "6", "0", "0");
    ReadSix();
    ReadZero();
  }

  /** As written, JNA 6.0.0 fails the test (its minor part 0 is below 13)
    * and is replaced by the older 5.13.0. */
  lemma JnaDowngradeAsWritten(lib: Library)
    requires lib.name == JnaSix
    ensures ProcessLibraryAsWritten(lib).name == JnaName
    ensures MajorOf(lib.name) == 6 && MinorOf(lib.name) == 0
  {
    JnaSixParts();
    PrefixHasVersion(lib.name);
  }

  /** With the intended test a JNA library is only ever moved forward: the
    * rewrite touches exactly the versions below 5.13. */
  lemma JnaNeverDowngraded(lib: Library)
    requires StartsWith(lib.name, JnaPrefix)
    ensures ProcessLibrary(lib) != lib <==>
      MajorOf(lib.name) < 5 || (MajorOf(lib.name) == 5 && MinorOf(lib.name) < 13)
  {
    JnaRewrite(lib);
    if !JnaKept(MajorOf(lib.name), MinorOf(lib.name)) {
      JnaNameIsCurrent();
      assert lib.name != JnaName;
    }
  }
}
