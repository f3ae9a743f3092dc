/** A Forge version list entry: the build number it sorts by, with the
  * branch fixes some old builds need, and the kind of file it downloads. */
module ForgeVersion {
  import opened Wrappers
  import opened KotlinText
  import opened BuildNumber

  /** Builds published without the "1.8.9" branch they belong to. */
  const SpecialVersions: seq<Str> := ["11.15.1.2318", "11.15.1.1902", "11.15.1.1890"]

  /** The branch the build number is parsed with. The legacy 1.7.10 test
    * reads the fourth dot-separated segment with `toInt()`, which throws
    * when it is missing or not an `Int`: that outcome is None. */
  function ModifiedBranch(version: Str, branch: Option<Str>, inherit: Str): (r: Option<Option<Str>>)
    ensures r.None? ==> branch.None? && inherit == "1.7.10" && version !in SpecialVersions
  {
    if version in SpecialVersions then Some(Some("1.8.9"))
    else if branch.None? && inherit == "1.7.10" then
      var parts := Split(version, '.');
      if |parts| < 4 || ToIntOrNull(parts[3]).None? then None
      else if ToIntOrNull(parts[3]).value >= 1300 then Some(Some("1.7.10"))
      else Some(branch)
    else Some(branch)
  }

  /** `parseVersion`: the build number of the version, with "-branch"
    * appended when there is a branch. */
  function BuildOf(version: Str, branch: Option<Str>, inherit: Str): (r: Option<BuildVersion>)
    ensures r.Some? ==> Parsed(r.value)
    ensures r.None? <==> ModifiedBranch(version, branch, inherit).None?
  {
    match ModifiedBranch(version, branch, inherit)
    case None => None
    case Some(b) => Some(Parse(WithBranch(version, b)))
  }

  /** The three 1.8.9 builds get that branch whatever they were listed with. */
  lemma SpecialBranch(version: Str, branch: Option<Str>, inherit: Str)
    requires version in SpecialVersions
    ensures ModifiedBranch(version, branch, inherit) == Some(Some("1.8.9"))
    ensures BuildOf(version, branch, inherit) == Some(Parse(version + "-" + "1.8.9"))
  {
    assert version + ("-" + "1.8.9") == version + "-" + "1.8.9";
  }

  /** A branchless 1.7.10 build whose fourth segment is at least 1300 gets
    * the branch "1.7.10"; a lower one keeps no branch. */
  lemma LegacyBranch(ns: seq<int>)
    requires |ns| == 4 && forall i :: 0 <= i < 4 ==> 0 <= ns[i] <= IntMax
    requires JoinWith(Texts(ns), ".") !in SpecialVersions
    ensures ns[3] >= 1300 ==> ModifiedBranch(JoinWith(Texts(ns), "."), None, "1.7.10") == Some(Some("1.7.10"))
    ensures ns[3] < 1300 ==> ModifiedBranch(JoinWith(Texts(ns), "."), None, "1.7.10") == Some(None)
  {
    SplitJoined(ns, {'.'});
    IntStringRoundTrip(ns[3]);
  }

  /** The branch only fills in missing components: a version that already
    * has four numbers keeps its build number. */
  lemma BranchOnlyPads(version: Str, branch: Option<Str>, inherit: Str)
    requires ModifiedBranch(version, branch, inherit).Some?
    requires |Numbers(SplitOn(version, BuildSeparators))| >= 4
    ensures BuildOf(version, branch, inherit) == Some(Parse(version))
  {
    var b := ModifiedBranch(version, branch, inherit).value;
    assert BuildOf(version, branch, inherit) == Some(Parse(WithBranch(version, b)));
    BranchSuffixIgnored(version, b);
  }

  function WithBranch(version: Str, b: Option<Str>): Str
  {
    version + (if b.Some? then "-" + b.value else "")
  }

  lemma BranchSuffixIgnored(version: Str, b: Option<Str>)
    requires |Numbers(SplitOn(version, BuildSeparators))| >= 4
    ensures Parse(WithBranch(version, b)) == Parse(version)
  {
    if b.Some? {
      ParseIgnoresTail(version, b.value);
      ConcatAssoc(version, "-", b.value);
    } else {
      assert version + "" == version;
    }
  }

  /** `fileExtension`: installers are jars, everything else zips. */
  function FileExtension(category: Str): (r: Str)
    ensures r == "jar" <==> category == "installer"
    ensures r == "zip" <==> category != "installer"
  {
    if category == "installer" then "jar" else "zip"
  }
}

/** A NeoForge version list entry, named by its raw Maven version. Builds of
  * the 1.20.1 line were published as "1.20.1-47.x.y" and are numbered 19.*
  * so they sort before the 20.* builds of later Minecraft versions. */
module NeoForgeVersion {
  import opened Wrappers
  import opened KotlinText
  import opened BuildNumber

  const LegacyMarker: Str := "1.20.1"

  const LegacyPrefix: Str := "1.20.1-"

  predicate IsLegacyLine(raw: Str)
  {
    Contains(raw, LegacyMarker)
  }

  /** `parseVersion`. */
  function ParseVersion(raw: Str): (v: BuildVersion)
    ensures Parsed(v)
  {
    if IsLegacyLine(raw) then Parse("19." + ReplaceAll(raw, LegacyPrefix, ""))
    else Parse(SubstringBefore(raw, '-'))
  }

  /** `parseVersionName`. */
  function VersionName(raw: Str): (r: Str)
    ensures !IsLegacyLine(raw) ==> r == raw
    ensures |r| <= |raw|
  {
    if IsLegacyLine(raw) then
      ReplaceLength(raw, LegacyPrefix, "");
      ReplaceAll(raw, LegacyPrefix, "")
    else raw
  }

  /** `parseInherit`: the Minecraft version an entry is for. */
  function Inherit(raw: Str): (r: Str)
    ensures StartsWith(r, "1.")
  {
    if IsLegacyLine(raw) then LegacyMarker
    else
      var v := ParseVersion(raw);
      "1." + IntToString(v.major) + (if v.minor != 0 then "." + IntToString(v.minor) else "")
  }

  /** `isBeta`. */
  predicate IsBeta(raw: Str)
  {
    Contains(raw, "beta")
  }

  /** The Maven package: the 1.20.1 line was published as "forge". */
  function PackageName(isLegacyForge: bool): Str
  {
    if isLegacyForge then "forge" else "neoforge"
  }

  const MavenReleases: Str := "https://maven.neoforged.net/releases/net/neoforged/"

  /** `baseUrl`: the release directory of the entry and the file stem in it. */
  function BaseUrl(raw: Str, isLegacyForge: bool): (r: Str)
    ensures StartsWith(r, MavenReleases + PackageName(isLegacyForge) + "/" + raw + "/")
    ensures EndsWith(r, "/" + PackageName(isLegacyForge) + "-" + raw)
  {
    var pkg := PackageName(isLegacyForge);
    var r := MavenReleases + pkg + "/" + raw + "/" + pkg + "-" + raw;
    assert r == (MavenReleases + pkg + "/" + raw + "/") + (pkg + "-" + raw);
    assert r == (MavenReleases + pkg + "/" + raw) + ("/" + pkg + "-" + raw);
    r
  }

  /** A 1.20.1 entry "1.20.1-rest" is named "rest", numbered "19.rest" and
    * inherits 1.20.1. */
  lemma LegacyEntry(rest: Str)
    requires !Contains(rest, LegacyPrefix)
    ensures IsLegacyLine(LegacyPrefix + rest)
    ensures VersionName(LegacyPrefix + rest) == rest
    ensures ParseVersion(LegacyPrefix + rest) == Parse("19." + rest)
    ensures Inherit(LegacyPrefix + rest) == "1.20.1"
  {
    var raw := LegacyPrefix + rest;
    assert raw[..|LegacyMarker|] == LegacyMarker;
    PrefixContained(raw, LegacyMarker);
    assert raw[..|LegacyPrefix|] == LegacyPrefix;
    assert raw[|LegacyPrefix|..] == rest;
    ReplaceAbsent(rest, LegacyPrefix, "");
  }

  /** Everything before the first '-' of a dotted number with a tag. */
  lemma BeforeTag(x: Str, tag: Str)
    requires '-' !in x
    ensures SubstringBefore(x + "-" + tag, '-') == x
  {
    var s := x + "-" + tag;
    var r := SubstringBefore(s, '-');
    assert s[|x|] == '-';
    assert s[..|x|] == x;
  }

  /** A later entry "a.b.c-tag" is numbered a.b.c.0. */
  lemma ModernEntry(ns: seq<int>, tag: Str)
    requires 1 <= |ns| <= 4 && forall i :: 0 <= i < |ns| ==> 0 <= ns[i] <= IntMax
    requires !IsLegacyLine(JoinWith(Texts(ns), ".") + "-" + tag)
    ensures ParseVersion(JoinWith(Texts(ns), ".") + "-" + tag) == Padded(ns)
  {
    var x := JoinWith(Texts(ns), ".");
    JoinedText(ns);
    BeforeTag(x, tag);
    ParseDotted(ns);
  }

  /** A join of decimal texts holds no '-'. */
  lemma {:induction false} JoinedText(ns: seq<int>)
    requires |ns| >= 1 && forall i :: 0 <= i < |ns| ==> ns[i] >= 0
    ensures '-' !in JoinWith(Texts(ns), ".")
    decreases |ns|
  {
    var ts := Texts(ns);
    DigitsOnly(ns[0], {'-'});
    if |ns| > 1 {
      JoinedText(ns[1..]);
      assert ts[1..] == Texts(ns[1..]);
    }
  }

  /** The inherited Minecraft version reads back as 1.major.minor of the
    * entry's number. */
  lemma InheritMatchesNumber(raw: Str)
    requires !IsLegacyLine(raw)
    ensures Parse(Inherit(raw)) == BuildVersion(1, ParseVersion(raw).major, ParseVersion(raw).minor, 0)
  {
    var v := ParseVersion(raw);
    assert Inherit(raw) == ShortName(v.major, v.minor);
    ShortNameParses(v.major, v.minor);
  }

  /** "1.major", followed by ".minor" unless the minor number is zero. */
  function ShortName(major: int, minor: int): Str
  {
    "1." + IntToString(major) + (if minor != 0 then "." + IntToString(minor) else "")
  }

  lemma ShortNameParses(major: int, minor: int)
    requires 0 <= major <= IntMax && 0 <= minor <= IntMax
    ensures Parse(ShortName(major, minor)) == BuildVersion(1, major, minor, 0)
  {
    assert IntToString(1) == "1";
    if minor != 0 {
      var ns := [1, major, minor];
      var ts := Texts(ns);
      assert ts[1..][1..] == [ts[2]];
      assert JoinWith(ts[1..], ".") == ts[1] + "." + ts[2];
      assert ShortName(major, minor) == JoinWith(ts, ".");
      ParseDotted(ns);
    } else {
      var ns := [1, major];
      var ts := Texts(ns);
      assert ts[1..] == [ts[1]];
      assert ShortName(major, minor) == JoinWith(ts, ".");
      ParseDotted(ns);
    }
  }
}
