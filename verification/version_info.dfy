/** What an installed version is: its Minecraft version and, when modded,
  * the mod loader's name and version. */
module VersionInfo {
  import opened Wrappers
  import opened KotlinText

  datatype LoaderInfo = LoaderInfo(name: Str, version: Str)

  datatype VersionInfo = VersionInfo(minecraftVersion: Str, loaderInfo: Option<LoaderInfo>)

  // ---------------------------------------------------------------------
  // getInfoString
  // ---------------------------------------------------------------------

  /** The loader's part of the summary: "name - version", or whichever of
    * the two has visible text, or nothing. */
  function LoaderPiece(info: Option<LoaderInfo>): (r: Option<Str>)
    ensures r.None? <==> info.None? || (IsBlank(info.value.name) && IsBlank(info.value.version))
  {
    if info.None? then None
    else if !IsBlank(info.value.name) && !IsBlank(info.value.version) then
      Some(info.value.name + " - " + info.value.version)
    else if !IsBlank(info.value.name) then Some(info.value.name)
    else if !IsBlank(info.value.version) then Some(info.value.version)
    else None
  }

  /** `getInfoString`: the Minecraft version, then the loader part, joined
    * by ", ". */
  function InfoString(v: VersionInfo): (r: Str)
    ensures StartsWith(r, v.minecraftVersion)
    ensures LoaderPiece(v.loaderInfo).None? ==> r == v.minecraftVersion
    ensures LoaderPiece(v.loaderInfo).Some? ==> r == v.minecraftVersion + ", " + LoaderPiece(v.loaderInfo).value
  {
    if LoaderPiece(v.loaderInfo).Some? then
      var parts := [v.minecraftVersion, LoaderPiece(v.loaderInfo).value];
      assert parts[1..] == [parts[1]];
      assert JoinWith(parts[1..], ", ") == parts[1];
      JoinWith(parts, ", ")
    else JoinWith([v.minecraftVersion], ", ")
  }

  /** A loader with both a name and a version is shown as "mc, name - version". */
  lemma InfoStringFull(mc: Str, name: Str, version: Str)
    requires !IsBlank(name) && !IsBlank(version)
    ensures InfoString(VersionInfo(mc, Some(LoaderInfo(name, version)))) == mc + ", " + name + " - " + version
  {
  }

  // ---------------------------------------------------------------------
  // getMcVersionCode
  // ---------------------------------------------------------------------

  /** Main and sub version of a release ("1.main.sub"). */
  datatype McVersionCode = McVersionCode(main: int, sub: int)

  /** The separators the version string is split at. */
  const VersionSeparators: set<char> := {' ', '_', '-', '.'}

  /** A segment counts when it is at most two characters and a number. */
  function SegmentCode(parts: seq<Str>, i: nat): (r: int)
    ensures r >= 0 || (i < |parts| && |parts[i]| <= 2)
  {
    if i < |parts| && |parts[i]| <= 2 && ToIntOrNull(parts[i]).Some? then ToIntOrNull(parts[i]).value else 0
  }

  /** `getMcVersionCode`: snapshots (any 'w') and "pending" are (99, 99),
    * "1.x.y" is (x, y) with bad segments 0, everything else (0, 0). */
  function McVersionCodeOf(mc: Str): (r: McVersionCode)
    ensures 'w' in mc ==> r == McVersionCode(99, 99)
    ensures 'w' !in mc && !EqualsIgnoreCase(mc, "pending") && !StartsWith(mc, "1.") ==> r == McVersionCode(0, 0)
    ensures r.main <= 99 && r.sub <= 99
  {
    if 'w' in mc || EqualsIgnoreCase(mc, "pending") then McVersionCode(99, 99)
    else if StartsWith(mc, "1.") then
      var parts := SplitOn(mc, VersionSeparators);
      var main := SegmentCode(parts, 1);
      var sub := SegmentCode(parts, 2);
      TwoCharsBound(parts, 1);
      TwoCharsBound(parts, 2);
      McVersionCode(main, sub)
    else McVersionCode(0, 0)
  }

  /** A number of at most two characters is below 100. */
  lemma TwoCharsBound(parts: seq<Str>, i: nat)
    ensures SegmentCode(parts, i) <= 99
  {
    if i < |parts| && |parts[i]| <= 2 && ToIntOrNull(parts[i]).Some? {
      var s := parts[i];
      if s[0] == '-' || s[0] == '+' {
        assert |s[1..]| == 1;
        assert DigitsValue(s[1..]) <= 9 by { DigitValueOne(s[1..]); }
      } else {
        DigitValueTwo(s);
      }
    }
  }

  lemma DigitValueOne(s: Str)
    requires |s| == 1 && AllDigits(s)
    ensures DigitsValue(s) <= 9
  {
    assert s[..0] == [];
  }

  lemma DigitValueTwo(s: Str)
    requires 1 <= |s| <= 2 && AllDigits(s)
    ensures DigitsValue(s) <= 99
  {
    if |s| == 1 {
      DigitValueOne(s);
    } else {
      DigitValueOne(s[..1]);
      assert s[..1] == s[..|s| - 1];
    }
  }

  /** The digits of a number below 100 are one or two decimal digits. */
  lemma SmallDigits(n: nat)
    requires n < 100
    ensures 1 <= |NatToDigits(n)| <= 2
    ensures forall c :: c in NatToDigits(n) ==> IsDigit(c)
  {
    NatDigitsHaveNoSign(n);
  }

  /** A release "1.x.y" with x and y below 100 gets the code (x, y). */
  lemma ReleaseCode(x: nat, y: nat)
    requires x < 100 && y < 100
    ensures McVersionCodeOf("1." + NatToDigits(x) + "." + NatToDigits(y)) == McVersionCode(x, y)
  {
    var dx, dy := NatToDigits(x), NatToDigits(y);
    var mc := "1." + dx + "." + dy;
    SmallDigits(x);
    SmallDigits(y);
    ReleaseShape(dx, dy);
    ReleaseParts(dx, dy);
    IntStringRoundTrip(x);
    IntStringRoundTrip(y);
    var parts := SplitOn(mc, VersionSeparators);
    assert SegmentCode(parts, 1) == x;
    assert SegmentCode(parts, 2) == y;
  }

  /** "1.x.y" of digits is no snapshot, not "pending", and starts with "1.". */
  lemma ReleaseShape(dx: Str, dy: Str)
    requires forall c :: c in dx ==> IsDigit(c)
    requires forall c :: c in dy ==> IsDigit(c)
    ensures var mc := "1." + dx + "." + dy;
      'w' !in mc && !EqualsIgnoreCase(mc, "pending") && StartsWith(mc, "1.")
  {
    var mc := "1." + dx + "." + dy;
    assert forall c :: c in mc ==> c == '1' || c == '.' || c in dx || c in dy;
    assert Lowercase(mc)[0] == '1';
    assert Lowercase("pending")[0] == 'p';
    assert mc[..2] == "1.";
  }

  /** Three separator-free pieces joined by one separator split back into
    * those pieces. */
  lemma SplitThreeAt(a: Str, b: Str, c: Str, d: char, ds: set<char>)
    requires d in ds
    requires forall x :: x in a ==> x !in ds
    requires forall x :: x in b ==> x !in ds
    requires forall x :: x in c ==> x !in ds
    ensures SplitOn(a + [d] + b + [d] + c, ds) == [a, b, c]
  {
    assert a + [d] + b + [d] + c == a + [d] + (b + [d] + c);
    SplitOnAppend(a, b + [d] + c, d, ds);
    SplitOnAppend(b, c, d, ds);
    SplitOnWhole(a, ds);
    SplitOnWhole(b, ds);
    SplitOnWhole(c, ds);
  }

  /** Digits are none of the version separators. */
  lemma DigitsNotSeparators(s: Str)
    requires forall c :: c in s ==> IsDigit(c)
    ensures forall c :: c in s ==> c !in VersionSeparators
  {
  }

  /** "1.x.y" of separator-free segments splits into "1", x and y. */
  lemma ReleaseParts(dx: Str, dy: Str)
    requires forall c :: c in dx ==> IsDigit(c)
    requires forall c :: c in dy ==> IsDigit(c)
    ensures SplitOn("1." + dx + "." + dy, VersionSeparators) == ["1", dx, dy]
  {
    assert "1." + dx + "." + dy == "1" + ['.'] + dx + ['.'] + dy;
    DigitsNotSeparators("1");
    DigitsNotSeparators(dx);
    DigitsNotSeparators(dy);
    SplitThreeAt("1", dx, dy, '.', VersionSeparators);
  }

  // ---------------------------------------------------------------------
  // getLoaderEnvKey
  // ---------------------------------------------------------------------

  /** The environment variable that tells the game which loader it runs on. */
  function LoaderEnvKey(name: Str): (r: Option<Str>)
    ensures r.Some? ==> StartsWith(r.value, "INST_")
    ensures r.None? <==> name !in {"OptiFine", "Forge", "NeoForge", "Fabric", "Quilt", "LiteLoader"}
  {
    if name == "OptiFine" then Some("INST_OPTIFINE")
    else if name == "Forge" then Some("INST_FORGE")
    else if name == "NeoForge" then Some("INST_NEOFORGE")
    else if name == "Fabric" then Some("INST_FABRIC")
    else if name == "Quilt" then Some("INST_QUILT")
    else if name == "LiteLoader" then Some("INST_LITELOADER")
    else None
  }

  /** Different loaders never share a key, so the game sees which one it is. */
  lemma LoaderEnvKeyInjective(a: Str, b: Str)
    requires LoaderEnvKey(a).Some? && LoaderEnvKey(a) == LoaderEnvKey(b)
    ensures a == b
  {
  }

  /** The environment key of a version's loader, when it has a known one. */
  function LoaderKey(info: Option<VersionInfo>): Option<Str>
  {
    if info.Some? && info.value.loaderInfo.Some? then LoaderEnvKey(info.value.loaderInfo.value.name) else None
  }

  /** `initEnv`: the loader's key is set to "1" when the version has a known
    * loader; nothing else changes. */
  function LoaderEnv(env: map<Str, Str>, info: Option<VersionInfo>): (r: map<Str, Str>)
    ensures forall k :: k in env && LoaderKey(info) != Some(k) ==> k in r && r[k] == env[k]
    ensures LoaderKey(info).Some? ==> LoaderKey(info).value in r && r[LoaderKey(info).value] == "1"
    ensures r.Keys == env.Keys + (if LoaderKey(info).Some? then {LoaderKey(info).value} else {})
  {
    if LoaderKey(info).Some? then env[LoaderKey(info).value := "1"] else env
  }
}
