/** Installed Java runtimes: the `Runtime` record, how a runtime's `release`
  * file is read, the per-name cache, the listing sorted newest first, and
  * the exact/nearest lookups by Java major version. */
module Runtimes {
  import opened Wrappers
  import opened KotlinText
  import opened StringUtils
  import opened Architecture
  import opened MathUtils

  // ---------------------------------------------------------------------
  // Runtime.java
  // ---------------------------------------------------------------------

  /** A runtime directory. `versionString` and `arch` are absent when the
    * `release` file could not be read. */
  datatype Runtime = Runtime(
    name: Str,
    versionString: Option<Str>,
    arch: Option<Str>,
    javaVersion: int,
    isProvidedByLauncher: bool)

  /** The name-only constructor. */
  function NamedRuntime(name: Str): Runtime
  {
    Runtime(name, None, None, 0, false)
  }

  /** Every runtime the launcher builds that has a version also has an
    * architecture (`archAsInt` takes a non-null string). */
  predicate WellFormed(rt: Runtime)
  {
    rt.versionString.Some? ==> rt.arch.Some?
  }

  /** `isCompatible`: a version is known and its architecture is the
    * device's. */
  predicate IsCompatible(rt: Runtime, deviceArch: int)
    requires WellFormed(rt)
  {
    rt.versionString.Some? && deviceArch == ArchAsInt(rt.arch.value)
  }

  /** `equals`: runtimes are the same when their names are. */
  predicate SameRuntime(a: Runtime, b: Runtime)
  {
    a.name == b.name
  }

  /** Java's `String.hashCode`, `h = 31 * h + u` over the UTF-16 code units
    * with `Int` wrap-around, from a starting accumulator. */
  function HashFrom(h: int, us: seq<int>): (r: int)
    requires InInt(h)
    ensures InInt(r)
    decreases |us|
  {
    if |us| == 0 then h else HashFrom(WrapInt(31 * h + us[0]), us[1..])
  }

  function StringHash(s: Str): int
  {
    HashFrom(0, Utf16Units(s))
  }

  /** `Objects.hash(name)`: the array hash of the one-element array. */
  function RuntimeHash(rt: Runtime): int
  {
    WrapInt(31 + StringHash(rt.name))
  }

  /** The same polynomial over unbounded integers. */
  function PolyFrom(h: int, us: seq<int>): int
    decreases |us|
  {
    if |us| == 0 then h else PolyFrom(31 * h + us[0], us[1..])
  }

  /** The name-only constructor gives a runtime with no version, no
    * architecture, Java version 0, not bundled, and never compatible. */
  lemma NamedRuntimeIncompatible(name: Str, deviceArch: int)
    ensures var rt := NamedRuntime(name);
      WellFormed(rt) && rt.name == name && rt.versionString.None? && rt.arch.None?
      && rt.javaVersion == 0 && !rt.isProvidedByLauncher && !IsCompatible(rt, deviceArch)
  {
  }

  /** A runtime whose `OS_ARCH` is the device architecture's own name is
    * compatible exactly when its version is known; and a compatible
    * runtime implies the device code is one `archAsInt` can produce. */
  lemma CompatibleWithDeviceName(rt: Runtime, deviceArch: int)
    requires WellFormed(rt)
    ensures IsSupportedArch(deviceArch) && rt.arch == Some(ArchAsString(deviceArch)) ==>
      (IsCompatible(rt, deviceArch) <==> rt.versionString.Some?)
    ensures IsCompatible(rt, deviceArch) ==> deviceArch == UnsupportedArch || IsSupportedArch(deviceArch)
  {
    if IsSupportedArch(deviceArch) {
      ArchNameRoundTrip(deviceArch);
    }
  }

  /** Equal runtimes have equal hashes, so both agree on the name alone. */
  lemma EqualsHashConsistent(a: Runtime, b: Runtime)
    ensures SameRuntime(a, b) <==> a.name == b.name
    ensures SameRuntime(a, b) ==> RuntimeHash(a) == RuntimeHash(b)
  {
  }

  /** Multiplying the difference of two congruent values keeps them
    * congruent. */
  lemma WrapTimes31(h: int, c: int)
    ensures WrapInt(31 * WrapInt(h) + c) == WrapInt(31 * h + c)
  {
    var w := WrapInt(h);
    var k := (h - w) / IntSpan;
    assert h - w == k * IntSpan;
    assert (31 * w + c) - (31 * h + c) == (-31 * k) * IntSpan;
    ModShift(0, -31 * k);
    WrapCongruent(31 * w + c, 31 * h + c);
  }

  /** The wrapped hash is the exact polynomial reduced once at the end. */
  lemma {:induction false} HashIsPolynomial(h: int, us: seq<int>)
    requires InInt(h)
    ensures HashFrom(h, us) == WrapInt(PolyFrom(h, us))
    decreases |us|
  {
    if |us| > 0 {
      var c := us[0];
      var h' := WrapInt(31 * h + c);
      HashIsPolynomial(h', us[1..]);
      PolyShift(h', 31 * h + c, us[1..]);
    }
  }

  /** Starting the polynomial from congruent accumulators gives congruent
    * results. */
  lemma {:induction false} PolyShift(a: int, b: int, us: seq<int>)
    requires WrapInt(a) == WrapInt(b)
    ensures WrapInt(PolyFrom(a, us)) == WrapInt(PolyFrom(b, us))
    decreases |us|
  {
    if |us| > 0 {
      var c := us[0];
      WrapTimes31(a, c);
      WrapTimes31(b, c);
      PolyShift(31 * a + c, 31 * b + c, us[1..]);
    }
  }

  /** A character outside the Basic Multilingual Plane is hashed as its two
    * surrogates: U+1F600 gives 31 * 0xD83D + 0xDE00. */
  lemma EmojiNameHash()
    ensures StringHash("\U{1F600}") == 31 * 0xD83D + 0xDE00
  {
    var us := Utf16Units("\U{1F600}");
    assert us == Utf16Of('\U{1F600}') + Utf16Units([]);
    assert us == [0xD83D, 0xDE00];
    HashIsPolynomial(0, us);
  }

  // ---------------------------------------------------------------------
  // Reading a runtime's release file (RuntimesManager.loadRuntime)
  // ---------------------------------------------------------------------

  /** The `release` file of a runtime directory, as the loader finds it. */
  datatype ReleaseFile = Missing | Unreadable | Text(content: Str)

  const JavaVersionKey: Str := "JAVA_VERSION=\""
  const OsArchKey: Str := "OS_ARCH=\""

  /** The Java major version of a `JAVA_VERSION` value: "1.x…" gives x, any
    * other value its first dotted segment; an unparsable segment gives 0. */
  function MajorVersion(javaVersion: Str): (r: int)
    ensures InInt(r)
  {
    var parts := Split(javaVersion, '.');
    if parts[0] == "1" then
      (if |parts| > 1 then ToIntOrNull(parts[1]).GetOr(0) else 0)
    else ToIntOrNull(parts[0]).GetOr(0)
  }

  /** A runtime built from its `release` file; a missing file, an
    * unreadable one, or one lacking either key gives the bare name. */
  function LoadFromRelease(name: Str, release: ReleaseFile, bundled: set<Str>): (rt: Runtime)
    ensures rt.name == name && WellFormed(rt)
    ensures (release.Missing? || release.Unreadable?) ==> rt == NamedRuntime(name)
    ensures release.Text? ==>
      var jv := ExtractUntilCharacter(release.content, JavaVersionKey, '"');
      var oa := ExtractUntilCharacter(release.content, OsArchKey, '"');
      if jv.Some? && oa.Some? then
        rt.versionString == jv && rt.arch == oa
        && rt.javaVersion == MajorVersion(jv.value)
        && (rt.isProvidedByLauncher <==> name in bundled)
      else rt == NamedRuntime(name)
    ensures rt.versionString.Some? ==> '"' !in rt.versionString.value && '"' !in rt.arch.value
  {
    match release
    case Missing => NamedRuntime(name)
    case Unreadable => NamedRuntime(name)
    case Text(content) =>
      var jv := ExtractUntilCharacter(content, JavaVersionKey, '"');
      var oa := ExtractUntilCharacter(content, OsArchKey, '"');
      if jv.Some? && oa.Some? then
        Runtime(name, jv, oa, MajorVersion(jv.value), name in bundled)
      else NamedRuntime(name)
  }

  /** A legacy "1.x" version string yields x. */
  lemma LegacyMajorVersion(x: nat, rest: Str)
    requires InInt(x)
    requires rest == [] || rest[0] == '.'
    ensures MajorVersion("1." + IntToString(x) + rest) == x
  {
    var digits := IntToString(x);
    NatDigitsHaveNoSign(x);
    assert '.' !in digits;
    assert "1." + digits + rest == "1" + ['.'] + (digits + rest);
    SplitAppend("1", digits + rest, '.');
    SplitWhole("1", '.');
    SplitFirstPart(digits, rest, '.');
    IntStringRoundTrip(x);
  }

  /** A modern version string "x…" with x other than 1 yields x. */
  lemma ModernMajorVersion(x: nat, rest: Str)
    requires InInt(x) && x != 1
    requires rest == [] || rest[0] == '.'
    ensures MajorVersion(IntToString(x) + rest) == x
  {
    var digits := IntToString(x);
    NatDigitsHaveNoSign(x);
    assert '.' !in digits;
    SplitFirstPart(digits, rest, '.');
    IntStringRoundTrip(x);
    IntStringRoundTrip(1);
    assert IntToString(1) == "1";
  }

  // ---------------------------------------------------------------------
  // The runtime cache
  // ---------------------------------------------------------------------

  type Cache = map<Str, Runtime>

  /** Every entry is stored under its runtime's own name. */
  predicate CacheConsistent(cache: Cache)
  {
    forall n :: n in cache ==> cache[n].name == n
  }

  /** `loadRuntime`: the cached entry unless a reload is forced; otherwise
    * the release file is read and the result cached under the name. */
  function LoadRuntime(cache: Cache, name: Str, forceLoad: bool, release: ReleaseFile, bundled: set<Str>)
    : (res: (Runtime, Cache))
    ensures name in cache && !forceLoad ==> res == (cache[name], cache)
    ensures !(name in cache && !forceLoad) ==>
      res.0 == LoadFromRelease(name, release, bundled) && res.1 == cache[name := res.0]
    ensures CacheConsistent(cache) ==> CacheConsistent(res.1) && res.0.name == name
  {
    if name in cache && !forceLoad then (cache[name], cache)
    else
      var rt := LoadFromRelease(name, release, bundled);
      (rt, cache[name := rt])
  }

  /** `removeRuntime`: an existing directory is deleted and its entry
    * evicted; a missing one changes nothing. */
  function RemoveRuntime(cache: Cache, name: Str, exists_: bool): (c: Cache)
    ensures name !in c || !exists_
    ensures forall n :: n in c <==> n in cache && (n != name || !exists_)
    ensures forall n :: n in c ==> c[n] == cache[n]
  {
    if exists_ then cache - {name} else cache
  }

  /** `forceReload`: evict, then load. */
  function ForceReload(cache: Cache, name: Str, release: ReleaseFile, bundled: set<Str>)
    : (res: (Runtime, Cache))
  {
    LoadRuntime(cache - {name}, name, false, release, bundled)
  }

  /** A second load without forcing returns what the first one cached,
    * whatever the release file says by then. */
  lemma LoadTwice(cache: Cache, name: Str, forceLoad: bool, r1: ReleaseFile, r2: ReleaseFile, bundled: set<Str>)
    ensures var (rt, c) := LoadRuntime(cache, name, forceLoad, r1, bundled);
      LoadRuntime(c, name, false, r2, bundled) == (rt, c)
  {
  }

  /** After a removal, the next load reads the release file again, and a
    * forced reload is a forced load. */
  lemma RemoveThenLoad(cache: Cache, name: Str, release: ReleaseFile, bundled: set<Str>)
    ensures LoadRuntime(RemoveRuntime(cache, name, true), name, false, release, bundled).0
      == LoadFromRelease(name, release, bundled)
    ensures ForceReload(cache, name, release, bundled).0 == LoadRuntime(cache, name, true, release, bundled).0
  {
  }

  // ---------------------------------------------------------------------
  // Listing (getRuntimes)
  // ---------------------------------------------------------------------

  /** The text a runtime is ordered by: its version, else its name. */
  function SortKey(rt: Runtime): Str
  {
    rt.versionString.GetOr(rt.name)
  }

  /** Newest first: no runtime compares older than the one after it. */
  predicate SortedNewestFirst(rts: seq<Runtime>)
  {
    forall i :: 0 <= i < |rts| - 1 ==> CompareClassVersions(SortKey(rts[i]), SortKey(rts[i + 1])) >= 0
  }

  /** Places `x` before the first runtime it is not older than, so equal
    * keys keep their input order. */
  function Insert(x: Runtime, rts: seq<Runtime>): (r: seq<Runtime>)
    requires SortedNewestFirst(rts)
    ensures SortedNewestFirst(r)
    ensures multiset(r) == multiset(rts) + multiset{x}
    ensures |r| > 0 && (r[0] == x || (|rts| > 0 && r[0] == rts[0]))
    decreases |rts|
  {
    if |rts| == 0 then [x]
    else if CompareClassVersions(SortKey(x), SortKey(rts[0])) >= 0 then [x] + rts
    else
      SortedTail(rts);
      var tail := Insert(x, rts[1..]);
      CompareAntisymmetric(SortKey(x), SortKey(rts[0]));
      SortedCons(rts[0], tail);
      ConsMultiset(rts, tail, x);
      [rts[0]] + tail
  }

  lemma SortedTail(rts: seq<Runtime>)
    requires |rts| > 0 && SortedNewestFirst(rts)
    ensures SortedNewestFirst(rts[1..])
  {
    var t := rts[1..];
    forall i | 0 <= i < |t| - 1 ensures CompareClassVersions(SortKey(t[i]), SortKey(t[i + 1])) >= 0 {
      assert t[i] == rts[i + 1] && t[i + 1] == rts[i + 2];
    }
  }

  lemma ConsMultiset<T>(xs: seq<T>, tail: seq<T>, x: T)
    requires |xs| > 0 && multiset(tail) == multiset(xs[1..]) + multiset{x}
    ensures multiset([xs[0]] + tail) == multiset(xs) + multiset{x}
  {
    assert xs == [xs[0]] + xs[1..];
  }

  lemma SortedCons(y: Runtime, tail: seq<Runtime>)
    requires SortedNewestFirst(tail)
    requires |tail| > 0 ==> CompareClassVersions(SortKey(y), SortKey(tail[0])) >= 0
    ensures SortedNewestFirst([y] + tail)
  {
    var r := [y] + tail;
    forall i | 0 <= i < |r| - 1 ensures CompareClassVersions(SortKey(r[i]), SortKey(r[i + 1])) >= 0 {
      if i > 0 { assert r[i] == tail[i - 1] && r[i + 1] == tail[i]; }
    }
  }

  /** The runtimes ordered newest first, as `sortedWith` with the negated
    * comparison orders them. */
  function SortRuntimes(rts: seq<Runtime>): (r: seq<Runtime>)
    ensures SortedNewestFirst(r)
    ensures multiset(r) == multiset(rts)
    decreases |rts|
  {
    if |rts| == 0 then []
    else
      assert rts == [rts[0]] + rts[1..];
      Insert(rts[0], SortRuntimes(rts[1..]))
  }

  /** In a sorted listing every runtime is at least as new as every later one. */
  lemma {:induction false} SortedAllPairs(rts: seq<Runtime>, i: nat, j: nat)
    requires SortedNewestFirst(rts)
    requires i < j < |rts|
    ensures CompareClassVersions(SortKey(rts[i]), SortKey(rts[j])) >= 0
    decreases j - i
  {
    if j > i + 1 {
      SortedAllPairs(rts, i + 1, j);
      var a, b, c := SortKey(rts[i]), SortKey(rts[i + 1]), SortKey(rts[j]);
      assert CompareClassVersions(a, b) >= 0;
      CompareChain(a, b, c);
    }
  }

  /** The runtime folder as the listing finds it. */
  datatype RuntimeFolder = Absent | Unlistable | Listed(entries: seq<(Str, bool)>)

  datatype ListError = FolderNotAccessible

  /** What loading a directory gives when the cache is as it was before
    * the listing started: the cached entry unless a reload is forced,
    * else the runtime its release file describes. */
  function Loaded(cache: Cache, name: Str, forceLoad: bool, release: Str -> ReleaseFile, bundled: set<Str>): Runtime
  {
    if name in cache && !forceLoad then cache[name] else LoadFromRelease(name, release(name), bundled)
  }

  /** Each directory loaded on its own against the starting cache. */
  function LoadedEach(cache: Cache, names: seq<Str>, forceLoad: bool, release: Str -> ReleaseFile, bundled: set<Str>)
    : seq<Runtime>
    decreases |names|
  {
    if |names| == 0 then []
    else [Loaded(cache, names[0], forceLoad, release, bundled)] + LoadedEach(cache, names[1..], forceLoad, release, bundled)
  }

  /** The runtime directories, each loaded through the cache in order. The
    * cache a load leaves behind changes nothing for the later ones: the
    * list is what loading each directory against the starting cache
    * gives. */
  function LoadAll(cache: Cache, names: seq<Str>, forceLoad: bool, release: Str -> ReleaseFile, bundled: set<Str>)
    : (res: (seq<Runtime>, Cache))
    requires CacheConsistent(cache)
    ensures CacheConsistent(res.1)
    ensures |res.0| == |names|
    ensures forall i :: 0 <= i < |names| ==> res.0[i].name == names[i]
    ensures res.0 == LoadedEach(cache, names, forceLoad, release, bundled)
    decreases |names|
  {
    if |names| == 0 then ([], cache)
    else
      var (rt, c) := LoadRuntime(cache, names[0], forceLoad, release(names[0]), bundled);
      var (rest, c2) := LoadAll(c, names[1..], forceLoad, release, bundled);
      LoadKeeps(cache, names[0], forceLoad, release, bundled);
      LoadedEachSame(c, cache, names[1..], forceLoad, release, bundled);
      ([rt] + rest, c2)
  }

  /** A load caches what a later load of any directory would have given
    * anyway. */
  lemma LoadKeeps(cache: Cache, name: Str, forceLoad: bool, release: Str -> ReleaseFile, bundled: set<Str>)
    ensures var res := LoadRuntime(cache, name, forceLoad, release(name), bundled);
      res.0 == Loaded(cache, name, forceLoad, release, bundled)
      && forall n :: Loaded(res.1, n, forceLoad, release, bundled) == Loaded(cache, n, forceLoad, release, bundled)
  {
  }

  lemma {:induction false} LoadedEachSame(c: Cache, cache: Cache, names: seq<Str>, forceLoad: bool,
                                          release: Str -> ReleaseFile, bundled: set<Str>)
    requires forall n :: Loaded(c, n, forceLoad, release, bundled) == Loaded(cache, n, forceLoad, release, bundled)
    ensures LoadedEach(c, names, forceLoad, release, bundled) == LoadedEach(cache, names, forceLoad, release, bundled)
    decreases |names|
  {
    if |names| > 0 {
      LoadedEachSame(c, cache, names[1..], forceLoad, release, bundled);
    }
  }

  /** The directory names among the folder's entries, in order. */
  function Directories(entries: seq<(Str, bool)>): (r: seq<Str>)
    ensures forall n :: n in r ==> exists e :: e in entries && e.1 && e.0 == n
    ensures forall e :: e in entries && e.1 ==> e.0 in r
  {
    if |entries| == 0 then []
    else (if entries[0].1 then [entries[0].0] else []) + Directories(entries[1..])
  }

  lemma Permuted<T>(a: seq<T>, b: seq<T>)
    requires multiset(a) == multiset(b)
    ensures |a| == |b|
    ensures forall x :: x in a ==> x in b
  {
    assert |a| == |multiset(a)| == |multiset(b)| == |b|;
    assert forall x :: x in a ==> x in multiset(b);
  }

  /** `getRuntimes`: nothing when the folder is missing, an error when it
    * cannot be listed, else every directory's runtime, newest first. */
  function GetRuntimes(folder: RuntimeFolder, cache: Cache, forceLoad: bool,
                       release: Str -> ReleaseFile, bundled: set<Str>)
    : (res: (Result<seq<Runtime>, ListError>, Cache))
    requires CacheConsistent(cache)
    ensures CacheConsistent(res.1)
    ensures folder.Absent? ==> res.0 == Ok([]) && res.1 == cache
    ensures folder.Unlistable? ==> res.0 == Err(FolderNotAccessible)
    ensures folder.Listed? ==>
      (res.0.Ok? && SortedNewestFirst(res.0.value)
       && multiset(res.0.value)
          == multiset(LoadedEach(cache, Directories(folder.entries), forceLoad, release, bundled))
       && |res.0.value| == |Directories(folder.entries)|
       && (forall rt :: rt in res.0.value ==> rt.name in Directories(folder.entries)))
  {
    match folder
    case Absent => (Ok([]), cache)
    case Unlistable => (Err(FolderNotAccessible), cache)
    case Listed(entries) =>
      var names := Directories(entries);
      var (rts, c) := LoadAll(cache, names, forceLoad, release, bundled);
      var sorted := SortRuntimes(rts);
      Permuted(sorted, rts);
      assert forall rt :: rt in rts ==> rt.name in names;
      (Ok(sorted), c)
  }

  // ---------------------------------------------------------------------
  // Lookups by Java version
  // ---------------------------------------------------------------------

  /** `getExactJreName`: the name of the first runtime with that Java
    * version, if any. */
  function ExactJreName(rts: seq<Runtime>, majorVersion: int): (r: Option<Str>)
    ensures r.None? <==> forall i :: 0 <= i < |rts| ==> rts[i].javaVersion != majorVersion
    ensures r.Some? ==>
      exists i :: 0 <= i < |rts| && rts[i].name == r.value && rts[i].javaVersion == majorVersion
        && (forall j :: 0 <= j < i ==> rts[j].javaVersion != majorVersion)
    decreases |rts|
  {
    if |rts| == 0 then None
    else if rts[0].javaVersion == majorVersion then Some(rts[0].name)
    else
      var r := ExactJreName(rts[1..], majorVersion);
      if r.Some? then
        var i :| 0 <= i < |rts[1..]| && rts[1..][i].name == r.value
          && rts[1..][i].javaVersion == majorVersion
          && forall j :: 0 <= j < i ==> rts[1..][j].javaVersion != majorVersion;
        assert rts[i + 1].name == r.value;
        r
      else r
  }

  /** `getNearestJreName`: the nearest-positive search over Java versions. */
  method NearestJreName(rts: seq<Runtime>, majorVersion: int) returns (r: Option<Str>)
    requires InInt(majorVersion)
    requires forall i :: 0 <= i < |rts| ==> InInt(rts[i].javaVersion)
    ensures r.None? <==> forall i :: 0 <= i < |rts| ==> !Eligible(majorVersion, rts[i].javaVersion)
    ensures r.Some? ==>
      exists i :: 0 <= i < |rts| && rts[i].name == r.value && Eligible(majorVersion, rts[i].javaVersion)
    ensures r.Some? && majorVersion >= 0 ==>
      exists i :: 0 <= i < |rts| && rts[i].name == r.value && rts[i].javaVersion >= majorVersion
        && (forall j :: 0 <= j < |rts| && rts[j].javaVersion >= majorVersion ==>
              rts[i].javaVersion <= rts[j].javaVersion)
  {
    var found := FindNearestPositive(majorVersion, rts, (rt: Runtime) => rt.javaVersion);
    if found.Some? {
      r := Some(found.value.value.name);
      if majorVersion >= 0 {
        var i :| 0 <= i < |rts| && rts[i] == found.value.value
          && rts[i].javaVersion - majorVersion == found.value.rank
          && forall j :: 0 <= j < i && rts[j].javaVersion >= majorVersion ==>
               rts[j].javaVersion - majorVersion > found.value.rank;
        assert rts[i].name == r.value;
      }
    } else {
      r := None;
    }
  }
}
