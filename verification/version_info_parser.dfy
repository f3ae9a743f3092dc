/** Reading an installed version's manifest: a mod-loader version inherits
  * from its Minecraft version, whose manifest is completed with the
  * loader's fields, libraries and game arguments. */
module VersionInfoParser {
  import opened Wrappers
  import opened KotlinText
  import opened Models
  import opened DownloadUtils

  /** The failures the merge raises (each aborts reading the manifest). */
  datatype MergeError =
    | NoColonInName(name: Str)        // `substring(0, lastIndexOf(':'))` of a name without ':'
    | MissingGameArguments            // `arguments.game` absent on one side
    | FlagValueOutOfBounds            // a duplicate flag is the last custom argument

  // ---------------------------------------------------------------------
  // Field copy
  // ---------------------------------------------------------------------

  /** `insertSafety` for the eight listed fields: each is taken from `from`
    * when it is present there, and kept from `target` otherwise. */
  function InsertSafety(target: Manifest, from: Manifest): (r: Manifest)
    ensures from.assetIndex.Some? ==> r.assetIndex == from.assetIndex
    ensures from.assetIndex.None? ==> r.assetIndex == target.assetIndex
    ensures from.assets.Some? ==> r.assets == from.assets
    ensures from.assets.None? ==> r.assets == target.assets
    ensures from.id.Some? ==> r.id == from.id
    ensures from.id.None? ==> r.id == target.id
    ensures from.mainClass.Some? ==> r.mainClass == from.mainClass
    ensures from.mainClass.None? ==> r.mainClass == target.mainClass
    ensures from.minecraftArguments.Some? ==> r.minecraftArguments == from.minecraftArguments
    ensures from.minecraftArguments.None? ==> r.minecraftArguments == target.minecraftArguments
    ensures from.releaseTime.Some? ==> r.releaseTime == from.releaseTime
    ensures from.releaseTime.None? ==> r.releaseTime == target.releaseTime
    ensures from.time.Some? ==> r.time == from.time
    ensures from.time.None? ==> r.time == target.time
    ensures from.versionType.Some? ==> r.versionType == from.versionType
    ensures from.versionType.None? ==> r.versionType == target.versionType
    ensures r.arguments == target.arguments && r.downloads == target.downloads
    ensures r.javaVersion == target.javaVersion && r.libraries == target.libraries
  {
    target.(
      assetIndex := Prefer(from.assetIndex, target.assetIndex),
      assets := Prefer(from.assets, target.assets),
      id := Prefer(from.id, target.id),
      mainClass := Prefer(from.mainClass, target.mainClass),
      minecraftArguments := Prefer(from.minecraftArguments, target.minecraftArguments),
      releaseTime := Prefer(from.releaseTime, target.releaseTime),
      time := Prefer(from.time, target.time),
      versionType := Prefer(from.versionType, target.versionType))
  }

  function Prefer<T>(a: Option<T>, b: Option<T>): Option<T>
  {
    if a.Some? then a else b
  }

  /** Copying twice from the same manifest changes nothing more. */
  lemma InsertSafetyIdempotent(target: Manifest, from: Manifest)
    ensures InsertSafety(InsertSafety(target, from), from) == InsertSafety(target, from)
  {
  }

  // ---------------------------------------------------------------------
  // Libraries
  // ---------------------------------------------------------------------

  /** A library's group and artifact: its name up to the last ':'. */
  function LibraryKey(name: Str): (r: Option<Str>)
    ensures r.None? <==> ':' !in name
    ensures r.Some? ==> StartsWith(name, r.value) && |r.value| < |name| && name[|r.value|] == ':'
    ensures r.Some? ==> ':' !in name[|r.value| + 1..]
  {
    var k := LastIndexOfChar(name, ':');
    if k < 0 then None else Some(name[..k])
  }

  /** Where the scan for `key` stops: the first inherited library whose
    * name has no ':' (the scan fails there) or whose key is `key`. */
  function StopIndex(key: Str, inherited: seq<Library>): (i: nat)
    ensures i <= |inherited|
    ensures forall j :: 0 <= j < i ==>
      LibraryKey(inherited[j].name).Some? && LibraryKey(inherited[j].name).value != key
    ensures i < |inherited| ==> LibraryKey(inherited[i].name) in {None, Some(key)}
    decreases |inherited|
  {
    if |inherited| == 0 then 0
    else
      var k := LibraryKey(inherited[0].name);
      if k.None? || k.value == key then 0
      else
        var i := 1 + StopIndex(key, inherited[1..]);
        assert forall j :: 1 <= j < i ==> inherited[j] == inherited[1..][j - 1];
        i
  }

  /** The inner loop of the merge: the first inherited library with the
    * custom library's key is removed, the others keep their order. */
  function RemoveOverridden(key: Str, inherited: seq<Library>): (r: Result<seq<Library>, MergeError>)
    decreases |inherited|
  {
    if |inherited| == 0 then Ok([])
    else
      var k := LibraryKey(inherited[0].name);
      if k.None? then Err(NoColonInName(inherited[0].name))
      else if k.value == key then Ok(inherited[1..])
      else
        var rest := RemoveOverridden(key, inherited[1..]);
        if rest.Err? then Err(rest.error) else Ok([inherited[0]] + rest.value)
  }

  /** The scan stops at the first library with the key, or fails at the first
    * name without ':'; a scan that runs off the end changes nothing. */
  lemma {:induction false} RemoveOverriddenAt(key: Str, inherited: seq<Library>)
    ensures var i := StopIndex(key, inherited);
      var r := RemoveOverridden(key, inherited);
      if i == |inherited| then r == Ok(inherited)
      else if ':' !in inherited[i].name then r.Err?
      else r == Ok(inherited[..i] + inherited[i + 1..])
    decreases |inherited|
  {
    if |inherited| > 0 {
      var k := LibraryKey(inherited[0].name);
      if k.Some? && k.value == key {
        assert inherited[..0] + inherited[1..] == inherited[1..];
      } else if k.Some? {
        var tail := inherited[1..];
        RemoveOverriddenAt(key, tail);
        var rest := RemoveOverridden(key, tail);
        var i := StopIndex(key, inherited);
        assert i == 1 + StopIndex(key, tail);
        if rest.Ok? {
          if i < |inherited| {
            SpliceTail(inherited, i);
          } else {
            assert inherited == [inherited[0]] + tail;
          }
        }
      }
    }
  }

  lemma SpliceTail<T>(xs: seq<T>, i: nat)
    requires 1 <= i < |xs|
    ensures xs[1..][i - 1] == xs[i]
    ensures [xs[0]] + (xs[1..][..i - 1] + xs[1..][i..]) == xs[..i] + xs[i + 1..]
  {
    assert [xs[0]] + xs[1..][..i - 1] == xs[..i];
    assert xs[1..][i..] == xs[i + 1..];
  }

  /** One removal takes away at most one library and adds none. */
  lemma RemoveOverriddenShrinks(key: Str, inherited: seq<Library>)
    requires RemoveOverridden(key, inherited).Ok?
    ensures |inherited| - 1 <= |RemoveOverridden(key, inherited).value| <= |inherited|
    ensures multiset(RemoveOverridden(key, inherited).value) <= multiset(inherited)
  {
    RemoveOverriddenAt(key, inherited);
    var i := StopIndex(key, inherited);
    if i < |inherited| {
      RemoveAtShrinks(inherited, i);
    }
  }

  lemma RemoveAtShrinks<T>(xs: seq<T>, i: nat)
    requires i < |xs|
    ensures |xs[..i] + xs[i + 1..]| == |xs| - 1
    ensures multiset(xs[..i] + xs[i + 1..]) <= multiset(xs)
  {
    assert xs == xs[..i] + [xs[i]] + xs[i + 1..];
  }

  /** The outer loop: each custom library, in order, removes the first
    * inherited library with its key from what is left. */
  function Remaining(custom: seq<Library>, inherited: seq<Library>): (r: Result<seq<Library>, MergeError>)
    ensures r.Ok? ==> |inherited| - |custom| <= |r.value| <= |inherited|
    ensures r.Ok? ==> multiset(r.value) <= multiset(inherited)
    ensures (exists i :: 0 <= i < |custom| && ':' !in custom[i].name) ==> r.Err?
    decreases |custom|
  {
    if |custom| == 0 then Ok(inherited)
    else
      var key := LibraryKey(custom[0].name);
      if key.None? then Err(NoColonInName(custom[0].name))
      else
        var once := RemoveOverridden(key.value, inherited);
        if once.Err? then Err(once.error)
        else
          RemoveOverriddenShrinks(key.value, inherited);
          assert forall j :: 1 <= j < |custom| ==> custom[j] == custom[1..][j - 1];
          Remaining(custom[1..], once.value)
  }

  /** Libraries whose keys the custom version does not use survive the
    * merge untouched, and then the merge is a plain concatenation. */
  lemma {:induction false} RemainingDisjoint(custom: seq<Library>, inherited: seq<Library>)
    requires forall i :: 0 <= i < |custom| ==> ':' in custom[i].name
    requires forall j :: 0 <= j < |inherited| ==> ':' in inherited[j].name
    requires forall i, j :: 0 <= i < |custom| && 0 <= j < |inherited| ==>
      LibraryKey(custom[i].name) != LibraryKey(inherited[j].name)
    ensures Remaining(custom, inherited) == Ok(inherited)
    decreases |custom|
  {
    if |custom| > 0 {
      var key := LibraryKey(custom[0].name).value;
      forall j | 0 <= j < |inherited| ensures LibraryKey(inherited[j].name) !in {None, Some(key)} {
        assert LibraryKey(custom[0].name) != LibraryKey(inherited[j].name);
      }
      NoStop(key, inherited);
      RemoveOverriddenAt(key, inherited);
      var rest := custom[1..];
      assert forall i :: 0 <= i < |rest| ==> rest[i] == custom[i + 1];
      assert Remaining(custom, inherited) == Remaining(rest, inherited);
      RemainingDisjoint(rest, inherited);
    }
  }

  /** With no name lacking ':' and no match, the scan runs to the end. */
  lemma NoStop(key: Str, inherited: seq<Library>)
    requires forall j :: 0 <= j < |inherited| ==> LibraryKey(inherited[j].name) !in {None, Some(key)}
    ensures StopIndex(key, inherited) == |inherited|
  {
    var s := StopIndex(key, inherited);
    if s < |inherited| {
      assert false;
    }
  }

  // ---------------------------------------------------------------------
  // Game arguments
  // ---------------------------------------------------------------------

  /** An argument the merge does not add twice: a "--" flag or a JSON object. */
  predicate Deduplicated(a: Arg)
  {
    a.Structured? || StartsWith(a.text, "--")
  }

  /** The argument loop from custom index `i`: a "--" flag already present
    * is not added again and a plain value right after it is skipped; other
    * strings are appended; JSON objects are appended only when absent. */
  function MergeArgs(total: seq<Arg>, custom: seq<Arg>, i: nat): (r: Result<seq<Arg>, MergeError>)
    requires i <= |custom|
    ensures r.Ok? ==> |total| <= |r.value| <= |total| + |custom| - i && r.value[..|total|] == total
    decreases |custom| - i
  {
    if i == |custom| then Ok(total)
    else
      var a := custom[i];
      if Deduplicated(a) && a in total then
        if a.Structured? then MergeArgs(total, custom, i + 1)
        else if i + 1 == |custom| then Err(FlagValueOutOfBounds)
        else if custom[i + 1].Text? && !StartsWith(custom[i + 1].text, "--") then MergeArgs(total, custom, i + 2)
        else MergeArgs(total, custom, i + 1)
      else
        var r := MergeArgs(total + [a], custom, i + 1);
        assert r.Ok? ==> r.value[..|total|] == r.value[..|total| + 1][..|total|];
        r
  }

  /** The inherited arguments stay first, in order, and everything after
    * them comes from the custom arguments. */
  lemma {:induction false} MergeKeepsInherited(total: seq<Arg>, custom: seq<Arg>, i: nat)
    requires i <= |custom|
    ensures var r := MergeArgs(total, custom, i);
      r.Ok? ==> (|total| <= |r.value| && r.value[..|total|] == total
                 && forall j :: |total| <= j < |r.value| ==> r.value[j] in custom[i..])
    decreases |custom| - i
  {
    if i < |custom| {
      var a := custom[i];
      var r := MergeArgs(total, custom, i);
      if Deduplicated(a) && a in total {
        if a.Structured? || (i + 1 < |custom| && !(custom[i + 1].Text? && !StartsWith(custom[i + 1].text, "--"))) {
          MergeKeepsInherited(total, custom, i + 1);
        } else if i + 1 < |custom| {
          MergeKeepsInherited(total, custom, i + 2);
          assert forall x :: x in custom[i + 2..] ==> x in custom[i..];
        }
      } else {
        MergeKeepsInherited(total + [a], custom, i + 1);
        if r.Ok? {
          assert r.value[..|total| + 1][..|total|] == r.value[..|total|];
          assert r.value[|total|] == a;
        }
      }
      assert forall x :: x in custom[i + 1..] ==> x in custom[i..];
    }
  }

  /** No flag or object is added that is already among the arguments. */
  lemma {:induction false} MergeNoDuplicates(total: seq<Arg>, custom: seq<Arg>, i: nat)
    requires i <= |custom|
    ensures var r := MergeArgs(total, custom, i);
      r.Ok? ==> forall j :: |total| <= j < |r.value| && Deduplicated(r.value[j]) ==> r.value[j] !in r.value[..j]
    decreases |custom| - i
  {
    if i < |custom| {
      var a := custom[i];
      var r := MergeArgs(total, custom, i);
      if Deduplicated(a) && a in total {
        if a.Structured? || (i + 1 < |custom| && !(custom[i + 1].Text? && !StartsWith(custom[i + 1].text, "--"))) {
          assert r == MergeArgs(total, custom, i + 1);
          MergeNoDuplicates(total, custom, i + 1);
        } else if i + 1 < |custom| {
          assert r == MergeArgs(total, custom, i + 2);
          MergeNoDuplicates(total, custom, i + 2);
        }
      } else {
        MergeNoDuplicates(total + [a], custom, i + 1);
        MergeKeepsInherited(total + [a], custom, i + 1);
        if r.Ok? {
          AppendedNoDuplicates(total, a, r.value);
        }
      }
    }
  }

  lemma AppendedNoDuplicates(total: seq<Arg>, a: Arg, rv: seq<Arg>)
    requires |total| + 1 <= |rv| && rv[..|total| + 1] == total + [a]
    requires Deduplicated(a) ==> a !in total
    requires forall j :: |total| + 1 <= j < |rv| && Deduplicated(rv[j]) ==> rv[j] !in rv[..j]
    ensures forall j :: |total| <= j < |rv| && Deduplicated(rv[j]) ==> rv[j] !in rv[..j]
  {
    assert rv[..|total|] == rv[..|total| + 1][..|total|] == total;
    assert rv[|total|] == a;
  }

  /** The merge fails only on a duplicate flag at the very end. */
  lemma {:induction false} MergeFailsOnlyAtEnd(total: seq<Arg>, custom: seq<Arg>, i: nat)
    requires i <= |custom|
    ensures MergeArgs(total, custom, i).Err? ==>
      |custom| > 0 && custom[|custom| - 1].Text? && StartsWith(custom[|custom| - 1].text, "--")
    decreases |custom| - i
  {
    if i < |custom| {
      var a := custom[i];
      if Deduplicated(a) && a in total {
        if a.Structured? || (i + 1 < |custom| && !(custom[i + 1].Text? && !StartsWith(custom[i + 1].text, "--"))) {
          MergeFailsOnlyAtEnd(total, custom, i + 1);
        } else if i + 1 < |custom| {
          MergeFailsOnlyAtEnd(total, custom, i + 2);
        }
      } else {
        MergeFailsOnlyAtEnd(total + [a], custom, i + 1);
      }
    }
  }

  /** Plain values (no flags, no objects) are all appended, in order. */
  lemma {:induction false} MergePlain(total: seq<Arg>, custom: seq<Arg>, i: nat)
    requires i <= |custom|
    requires forall j :: i <= j < |custom| ==> custom[j].Text? && !StartsWith(custom[j].text, "--")
    ensures MergeArgs(total, custom, i) == Ok(total + custom[i..])
    decreases |custom| - i
  {
    if i < |custom| {
      assert !Deduplicated(custom[i]);
      assert MergeArgs(total, custom, i) == MergeArgs(total + [custom[i]], custom, i + 1);
      MergePlain(total + [custom[i]], custom, i + 1);
      assert total + [custom[i]] + custom[i + 1..] == total + custom[i..];
    } else {
      assert total + custom[i..] == total;
    }
  }

  /** A flag the inherited arguments already have is dropped together with
    * its value. */
  lemma DuplicateFlagDropped(total: seq<Arg>, flag: Str, value: Str)
    requires StartsWith(flag, "--") && Text(flag) in total
    requires !StartsWith(value, "--")
    ensures MergeArgs(total, [Text(flag), Text(value)], 0) == Ok(total)
  {
    assert MergeArgs(total, [Text(flag), Text(value)], 2) == Ok(total);
  }

  // ---------------------------------------------------------------------
  // The whole manifest
  // ---------------------------------------------------------------------

  /** A `majorVersion` of 0 is replaced by the `version` field. */
  function FixJavaVersion(m: Manifest): (r: Manifest)
    ensures r.javaVersion.Some? <==> m.javaVersion.Some?
    ensures r.javaVersion.Some? && r.javaVersion.value.majorVersion == 0 ==> r.javaVersion.value.version == 0
    ensures m.javaVersion.Some? && m.javaVersion.value.majorVersion != 0 ==> r == m
    ensures r.libraries == m.libraries && r.arguments == m.arguments && r.id == m.id
    ensures m.javaVersion.Some? && m.javaVersion.value.majorVersion == 0 ==>
      r.javaVersion.value.majorVersion == m.javaVersion.value.version
      && r.javaVersion.value.version == m.javaVersion.value.version
      && r.javaVersion.value.component == m.javaVersion.value.component
    ensures r.(javaVersion := m.javaVersion) == m
  {
    if m.javaVersion.Some? && m.javaVersion.value.majorVersion == 0 then
      m.(javaVersion := Some(m.javaVersion.value.(majorVersion := m.javaVersion.value.version)))
    else m
  }

  lemma FixJavaVersionIdempotent(m: Manifest)
    ensures FixJavaVersion(FixJavaVersion(m)) == FixJavaVersion(m)
  {
  }

  /** `getGameManifest`, from the version's own manifest and the manifest it
    * inherits from. Without a loader, or when inheriting is skipped, only
    * the libraries are patched. Otherwise the inherited manifest takes the
    * listed fields, its libraries become the un-overridden inherited ones
    * followed by the custom ones, and when both have `arguments` the custom
    * game arguments are merged into the inherited ones. */
  function GetGameManifest(custom: Manifest, inherited: Manifest, hasLoader: bool, skipInheriting: bool)
    : (r: Result<Manifest, MergeError>)
    ensures (skipInheriting || !hasLoader) ==>
      r == Ok(FixJavaVersion(custom.(libraries := ProcessLibraries(custom.libraries))))
    ensures !skipInheriting && hasLoader && r.Ok? ==>
      Remaining(custom.libraries, inherited.libraries).Ok?
      && r.value.libraries == ProcessLibraries(Remaining(custom.libraries, inherited.libraries).value + custom.libraries)
    ensures !skipInheriting && hasLoader && r.Ok? ==>
      r.value.id == (if custom.id.Some? then custom.id else inherited.id)
      && r.value.downloads == inherited.downloads
    ensures !skipInheriting && hasLoader && (inherited.arguments.None? || custom.arguments.None?) && r.Ok? ==>
      r.value.arguments == inherited.arguments
    ensures !skipInheriting && hasLoader && Remaining(custom.libraries, inherited.libraries).Err? ==> r.Err?
  {
    if skipInheriting || !hasLoader then
      Ok(FixJavaVersion(custom.(libraries := ProcessLibraries(custom.libraries))))
    else
      var t := InsertSafety(inherited, custom);
      var rest := Remaining(custom.libraries, t.libraries);
      if rest.Err? then Err(rest.error)
      else
        var t2 := t.(libraries := ProcessLibraries(rest.value + custom.libraries));
        if t2.arguments.Some? && custom.arguments.Some? then
          var a := t2.arguments.value;
          var c := custom.arguments.value;
          if a.game.None? || c.game.None? then Err(MissingGameArguments)
          else
            var merged := MergeArgs(a.game.value, c.game.value, 0);
            if merged.Err? then Err(merged.error)
            else Ok(FixJavaVersion(t2.(arguments := Some(a.(game := Some(merged.value))))))
        else Ok(FixJavaVersion(t2))
  }

  /** With both `arguments` present, the inherited game arguments come first
    * and its JVM arguments are kept as they are. */
  lemma InheritedArgumentsFirst(custom: Manifest, inherited: Manifest)
    requires inherited.arguments.Some? && custom.arguments.Some?
    requires GetGameManifest(custom, inherited, true, false).Ok?
    ensures var r := GetGameManifest(custom, inherited, true, false).value;
      inherited.arguments.value.game.Some? && r.arguments.Some? && r.arguments.value.game.Some?
      && |inherited.arguments.value.game.value| <= |r.arguments.value.game.value|
      && r.arguments.value.game.value[..|inherited.arguments.value.game.value|] == inherited.arguments.value.game.value
      && r.arguments.value.jvm == inherited.arguments.value.jvm
  {
    var t := InsertSafety(inherited, custom);
    var rest := Remaining(custom.libraries, t.libraries);
    var t2 := t.(libraries := ProcessLibraries(rest.value + custom.libraries));
    var a := t2.arguments.value;
    var c := custom.arguments.value;
    assert a == inherited.arguments.value;
    MergeKeepsInherited(a.game.value, c.game.value, 0);
  }
}
