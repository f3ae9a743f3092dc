/** The OptiFine version list, read from the download page: each row's jar
  * link, date and Forge requirement become a list entry. Extracting the
  * fields from the page (regular expressions) happens before this model:
  * it receives the trimmed matches of each field in page order. */
module OptiFineVersions {
  import opened Wrappers
  import opened KotlinText

  datatype OptiFineVersion = OptiFineVersion(
    displayName: Str,
    fileName: Str,
    version: Str,
    inherit: Str,
    releaseDate: Str,
    forgeVersion: Option<Str>,
    isPreview: bool)

  datatype FetchError = ResponseTooShort | InconsistentFields

  /** A page shorter than this is not the download page. */
  const MinResponseLength: nat := 100

  const PreviewPrefix: Str := "preview_"

  predicate IsPreview(jar: Str)
  {
    StartsWith(jar, PreviewPrefix)
  }

  /** The jar name without ".jar" and without the preview marker. */
  function RawName(jar: Str): Str
  {
    RemovePrefix(RemoveSuffix(jar, ".jar"), PreviewPrefix)
  }

  /** The name shown: underscores become spaces, and "OptiFine ", "HD U "
    * and a ".0" before a space are dropped. */
  function DisplayName(rawName: Str): Str
  {
    ReplaceAll(ReplaceAll(ReplaceAll(ReplaceChar(rawName, '_', ' '), "OptiFine ", ""), "HD U ", ""), ".0 ", " ")
  }

  /** The Minecraft version: the first word of the shown name. */
  function InheritOf(displayName: Str): Str
  {
    Split(displayName, ' ')[0]
  }

  /** The file to download: the raw name with the preview marker and ".jar". */
  function FileName(jar: Str): Str
  {
    (if IsPreview(jar) then PreviewPrefix else "") + RawName(jar) + ".jar"
  }

  /** The installed version name: the Minecraft version, '-', and the raw
    * name without its Minecraft version part. */
  function VersionName(rawName: Str, inherit: Str): (r: Str)
    ensures StartsWith(r, inherit + "-")
  {
    var rest := if Contains(rawName, inherit + ".0_") then ReplaceAll(rawName, inherit + ".0_", "")
                else ReplaceAll(rawName, inherit + "_", "");
    assert inherit + "-" + rest == (inherit + "-") + rest;
    inherit + "-" + rest
  }

  /** A date "d.m.y" is shown as "y/m/d"; any other shape is kept. */
  function FormatDate(rawDate: Str): (r: Str)
    ensures |Split(rawDate, '.')| != 3 ==> r == rawDate
  {
    var parts := Split(rawDate, '.');
    if |parts| == 3 then parts[2] + "/" + parts[1] + "/" + parts[0] else rawDate
  }

  /** The Forge build an entry needs: none for "N/A", otherwise the text
    * without "Forge " in front and without '#'. */
  function ForgeRequirement(forge: Str): (r: Option<Str>)
    ensures r.None? <==> Contains(forge, "N/A")
    ensures r.Some? ==> '#' !in r.value
  {
    if Contains(forge, "N/A") then None
    else
      var s := ReplaceAll(RemovePrefix(forge, "Forge "), "#", "");
      ReplaceCharRemoves(RemovePrefix(forge, "Forge "), '#');
      Some(Trim(s))
  }

  /** One list entry from a row's jar link, date and Forge column. */
  function Row(jar: Str, date: Str, forge: Str): (r: OptiFineVersion)
    ensures r.isPreview <==> StartsWith(jar, PreviewPrefix)
    ensures StartsWith(r.version, r.inherit + "-")
  {
    var rawName := RawName(jar);
    var display := DisplayName(rawName);
    var inherit := InheritOf(display);
    OptiFineVersion(display, FileName(jar), VersionName(rawName, inherit), inherit,
                    FormatDate(date), ForgeRequirement(forge), IsPreview(jar))
  }

  /** `fetchOptiFineList` after the download: a short page and fields of
    * unequal count are errors; otherwise one entry per row, in page order. */
  function FetchList(pageLength: nat, names: seq<Str>, dates: seq<Str>, forges: seq<Str>, jars: seq<Str>)
    : (r: Result<seq<OptiFineVersion>, FetchError>)
    ensures pageLength < MinResponseLength ==> r == Err(ResponseTooShort)
    ensures pageLength >= MinResponseLength ==>
      (r == Err(InconsistentFields) <==> |names| != |dates| || |names| != |forges| || |names| != |jars|)
    ensures r.Ok? ==> (|r.value| == |names| == |jars|
      && forall i :: 0 <= i < |names| ==> r.value[i] == Row(jars[i], dates[i], forges[i]))
  {
    if pageLength < MinResponseLength then Err(ResponseTooShort)
    else if |names| != |dates| || |names| != |forges| || |names| != |jars| then Err(InconsistentFields)
    else Ok(seq(|names|, i requires 0 <= i < |names| => Row(jars[i], dates[i], forges[i])))
  }

  // ---------------------------------------------------------------------
  // Properties of one row
  // ---------------------------------------------------------------------

  /** The file name rebuilt from the pieces is the jar the page links to. */
  lemma FileNameRestoresJar(jar: Str)
    requires EndsWith(jar, ".jar")
    ensures FileName(jar) == jar
  {
    var stem := RemoveSuffix(jar, ".jar");
    assert stem + ".jar" == jar;
    if IsPreview(jar) {
      assert jar[7] == '_';
      assert forall k :: |jar| - 4 <= k < |jar| ==> jar[k] == jar[|jar| - 4..][k - (|jar| - 4)];
      assert |jar| >= 12;
      assert stem[..8] == jar[..8];
      assert StartsWith(stem, PreviewPrefix);
    } else {
      assert !StartsWith(stem, PreviewPrefix) by {
        if |stem| >= 8 { assert stem[..8] == jar[..8]; }
      }
    }
  }

  /** "d.m.y" becomes "y/m/d". */
  lemma DateReordered(d: Str, m: Str, y: Str)
    requires '.' !in d && '.' !in m && '.' !in y
    ensures FormatDate(d + "." + m + "." + y) == y + "/" + m + "/" + d
  {
    assert d + "." + m + "." + y == d + ['.'] + (m + ['.'] + y);
    SplitAppend(d, m + ['.'] + y, '.');
    SplitAppend(m, y, '.');
    SplitWhole(d, '.');
    SplitWhole(m, '.');
    SplitWhole(y, '.');
  }

  /** "Forge #n" requires Forge build n. */
  lemma ForgeBuildRequired(n: Str)
    requires Trimmed(n) && '#' !in n && !Contains("Forge #" + n, "N/A")
    ensures ForgeRequirement("Forge #" + n) == Some(n)
  {
    var f := "Forge #" + n;
    assert f[..6] == "Forge ";
    assert f[6..] == "#" + n;
    ReplaceAtMatch(n, "#", "");
    ReplaceAbsent(n, "#", "") by {
      MissingCharAbsent(n, "#", '#');
    }
    TrimTrimmed(n);
  }

  // ---------------------------------------------------------------------
  // Names of a release row
  // ---------------------------------------------------------------------

  /** A Minecraft version of digits and dots that does not end in ".0". */
  predicate ReleaseVersion(mc: Str)
  {
    |mc| > 0 && (forall c :: c in mc ==> IsDigit(c) || c == '.') && !EndsWith(mc, ".0")
  }

  /** An edition tag such as "E7": no separators and none of the letters
    * the name rewriting looks for. */
  predicate EditionTag(ed: Str)
  {
    forall c :: c in ed ==> c !in {' ', '_', '.', 'O', 'H'}
  }

  /** The raw name of a release jar "OptiFine_<mc>_HD_U_<ed>.jar". */
  function ReleaseRawName(mc: Str, ed: Str): Str
  {
    "OptiFine_" + mc + "_HD_U_" + ed
  }

  lemma SpacedRelease(mc: Str, ed: Str)
    requires ReleaseVersion(mc) && EditionTag(ed)
    ensures ReplaceChar(ReleaseRawName(mc, ed), '_', ' ') == "OptiFine " + mc + " HD U " + ed
  {
    var raw := ReleaseRawName(mc, ed);
    var want := "OptiFine " + mc + " HD U " + ed;
    var got := ReplaceChar(raw, '_', ' ');
    assert |got| == |want|;
    forall i | 0 <= i < |want| ensures got[i] == want[i] {
      if 9 <= i < 9 + |mc| {
        assert raw[i] == mc[i - 9] && want[i] == mc[i - 9];
        assert mc[i - 9] in mc;
      } else if 15 + |mc| <= i {
        assert raw[i] == ed[i - 15 - |mc|] && want[i] == ed[i - 15 - |mc|];
        assert ed[i - 15 - |mc|] in ed;
      }
    }
  }

  /** ".0 " does not occur when the only space follows a version that does
    * not end in ".0". */
  lemma NoDotZeroSpace(mc: Str, ed: Str)
    requires ReleaseVersion(mc) && EditionTag(ed)
    ensures !Contains(mc + " " + ed, ".0 ")
  {
    var s := mc + " " + ed;
    forall i | 0 <= i && i + 3 <= |s| ensures !OccursAt(s, ".0 ", i) {
      var w := s[i..i + 3];
      assert w[0] == s[i] && w[1] == s[i + 1] && w[2] == s[i + 2];
      if i + 2 < |mc| {
        assert s[i + 2] == mc[i + 2] && mc[i + 2] in mc;
      } else if i + 2 > |mc| {
        assert s[i + 2] == ed[i + 2 - |mc| - 1] && ed[i + 2 - |mc| - 1] in ed;
      } else {
        assert s[i..i + 2] == mc[|mc| - 2..];
      }
    }
    ContainsIff(s, ".0 ");
  }

  /** Dropping "OptiFine " from the spaced name of a release. */
  lemma StripOptiFine(mc: Str, ed: Str)
    requires ReleaseVersion(mc) && EditionTag(ed)
    ensures ReplaceAll("OptiFine " + mc + " HD U " + ed, "OptiFine ", "") == mc + " HD U " + ed
  {
    var rest := mc + " HD U " + ed;
    assert "OptiFine " + mc + " HD U " + ed == "OptiFine " + rest;
    ReplaceAtMatch(rest, "OptiFine ", "");
    assert 'O' !in rest by {
      assert forall c :: c in rest ==> c in mc || c in " HD U " || c in ed;
    }
    MissingCharAbsent(rest, "OptiFine ", 'O');
    ReplaceAbsent(rest, "OptiFine ", "");
  }

  /** The characters an edition tag lacks. */
  lemma EditionLacks(ed: Str)
    requires EditionTag(ed)
    ensures ' ' !in ed && '_' !in ed && '.' !in ed && 'O' !in ed && 'H' !in ed
  {
  }

  /** A release version, with or without a space after it, has no letter. */
  lemma ReleaseLacks(mc: Str, c: char)
    requires ReleaseVersion(mc)
    requires !IsDigit(c) && c != '.' && c != ' '
    ensures c !in mc && c !in mc + " "
  {
    assert forall x :: x in mc + " " ==> x in mc || x == ' ';
  }

  /** Deleting a pattern that occurs once: `a` and `b` lack its first
    * character and `c` lacks one of its characters, so only the match
    * between `a` and `b` is removed. */
  lemma DeleteOnce(a: Str, pat: Str, b: Str, c: Str, ch: char)
    requires |pat| > 0 && pat[0] !in a && pat[0] !in b
    requires ch in pat && ch !in c
    ensures ReplaceAll(a + (pat + (b + c)), pat, "") == a + (b + c)
  {
    ReplacePassThrough(a, pat + (b + c), pat, "");
    ReplaceAtMatch(b + c, pat, "");
    ReplacePassThrough(b, c, pat, "");
    MissingCharAbsent(c, pat, ch);
    ReplaceAbsent(c, pat, "");
  }

  /** Dropping "HD U " from it next. */
  lemma StripHdU(mc: Str, ed: Str)
    requires ReleaseVersion(mc) && EditionTag(ed)
    ensures ReplaceAll(mc + " HD U " + ed, "HD U ", "") == mc + " " + ed
  {
    var a := mc + " ";
    assert mc + " HD U " + ed == a + ("HD U " + ed);
    assert mc + " " + ed == a + ed;
    ReleaseLacks(mc, 'H');
    EditionLacks(ed);
    assert "HD U "[0] == 'H';
    assert "" + ed == ed;
    DeleteOnce(a, "HD U ", "", ed, 'H');
  }

  /** The shown name of a release is "<mc> <ed>". */
  lemma ReleaseDisplayName(mc: Str, ed: Str)
    requires ReleaseVersion(mc) && EditionTag(ed)
    ensures DisplayName(ReleaseRawName(mc, ed)) == mc + " " + ed
  {
    SpacedRelease(mc, ed);
    StripOptiFine(mc, ed);
    StripHdU(mc, ed);
    NoDotZeroSpace(mc, ed);
    ReplaceAbsent(mc + " " + ed, ".0 ", " ");
  }

  /** ".0_" cannot occur in `p + mc + q + e` when only `mc` has dots,
    * `mc` has no '_' and does not end in ".0", and `q` does not start
    * with '0'. */
  lemma NoDotZeroUnderscoreIn(p: Str, mc: Str, q: Str, e: Str)
    requires '.' !in p && '.' !in q && '.' !in e && '_' !in mc
    requires |q| > 0 && q[0] != '0' && !EndsWith(mc, ".0")
    ensures !Contains(p + mc + q + e, ".0_")
  {
    var s := p + mc + q + e;
    var m := |p| + |mc|;
    forall i | 0 <= i && i + 3 <= |s| ensures !OccursAt(s, ".0_", i) {
      assert s[i] != '.' || s[i + 1] != '0' || s[i + 2] != '_' by {
        if i < |p| {
          assert s[i] == p[i] && p[i] in p;
        } else if m <= i < m + |q| {
          assert s[i] == q[i - m] && q[i - m] in q;
        } else if m + |q| <= i {
          assert s[i] == e[i - m - |q|] && e[i - m - |q|] in e;
        } else if i + 2 < m {
          assert s[i + 2] == mc[i + 2 - |p|] && mc[i + 2 - |p|] in mc;
        } else if i + 1 == m {
          assert s[i + 1] == q[0];
        } else {
          assert s[i] == mc[|mc| - 2] && s[i + 1] == mc[|mc| - 1];
          assert mc[|mc| - 2..] == [mc[|mc| - 2], mc[|mc| - 1]];
        }
      }
      NotDotZeroUnderscoreAt(s, i);
    }
    ContainsIff(s, ".0_");
  }

  /** ".0_" does not start where one of its three characters differs. */
  lemma NotDotZeroUnderscoreAt(s: Str, i: int)
    requires 0 <= i && i + 3 <= |s|
    requires s[i] != '.' || s[i + 1] != '0' || s[i + 2] != '_'
    ensures !OccursAt(s, ".0_", i)
  {
    var w := s[i..i + 3];
    assert w[0] == s[i] && w[1] == s[i + 1] && w[2] == s[i + 2];
  }

  /** No '_' of a release's raw name follows ".0". */
  lemma NoDotZeroUnderscore(mc: Str, ed: Str)
    requires ReleaseVersion(mc) && EditionTag(ed)
    ensures !Contains(ReleaseRawName(mc, ed), ".0_")
  {
    ReleaseLacks(mc, '_');
    EditionLacks(ed);
    NoDotZeroUnderscoreIn("OptiFine_", mc, "_HD_U_", ed);
  }

  /** A pattern ending in ".0_" cannot occur where ".0_" does not. */
  lemma SuffixAbsent(s: Str, w: Str)
    requires !Contains(s, ".0_")
    ensures !Contains(s, w + ".0_")
  {
    ContainsIff(s, ".0_");
    ContainsIff(s, w + ".0_");
    var p := w + ".0_";
    forall i | 0 <= i && i + |p| <= |s| ensures !OccursAt(s, p, i) {
      assert !OccursAt(s, ".0_", i + |w|);
      assert s[i..i + |p|][|w|..] == s[i + |w|..i + |w| + 3];
      assert p[|w|..] == ".0_";
    }
  }

  /** The first character of a release version appears in neither fixed
    * part of the raw name. */
  lemma OutsideFixedParts(c: char)
    requires IsDigit(c) || c == '.'
    ensures c !in "OptiFine_" && c !in "HD_U_"
  {
  }

  /** Without a ".0_" after the Minecraft version, the version name
    * deletes "<mc>_". */
  lemma VersionNamePlain(raw: Str, inherit: Str)
    requires !Contains(raw, inherit + ".0_")
    ensures VersionName(raw, inherit) == inherit + "-" + ReplaceAll(raw, inherit + "_", "")
  {
  }

  /** A release's raw name around its "<mc>_". */
  lemma ReleaseRawSplit(mc: Str, ed: Str)
    ensures ReleaseRawName(mc, ed) == "OptiFine_" + ((mc + "_") + ("HD_U_" + ed))
  {
  }

  /** The version name of a release moves the Minecraft version to the
    * front: "OptiFine_1.10.2_HD_U_C1" is installed as
    * "1.10.2-OptiFine_HD_U_C1". */
  lemma ReleaseVersionName(mc: Str, ed: Str)
    requires ReleaseVersion(mc) && EditionTag(ed)
    ensures VersionName(ReleaseRawName(mc, ed), mc) == mc + "-OptiFine_HD_U_" + ed
  {
    var raw := ReleaseRawName(mc, ed);
    NoDotZeroUnderscore(mc, ed);
    SuffixAbsent(raw, mc);
    VersionNamePlain(raw, mc);
    ReleaseDelete(mc, ed);
  }

  /** Deleting "<mc>_" from a release's raw name leaves "OptiFine_HD_U_"
    * and the edition. */
  lemma ReleaseDelete(mc: Str, ed: Str)
    requires ReleaseVersion(mc) && EditionTag(ed)
    ensures ReplaceAll(ReleaseRawName(mc, ed), mc + "_", "") == "OptiFine_" + ("HD_U_" + ed)
  {
    var pat := mc + "_";
    assert pat[0] == mc[0] && mc[0] in mc;
    OutsideFixedParts(mc[0]);
    EditionLacks(ed);
    assert pat[|mc|] == '_';
    ReleaseRawSplit(mc, ed);
    DeleteOnce("OptiFine_", pat, "HD_U_", ed, '_');
  }

  lemma ReleaseJar(mc: Str, ed: Str)
    ensures RawName(ReleaseRawName(mc, ed) + ".jar") == ReleaseRawName(mc, ed)
    ensures !IsPreview(ReleaseRawName(mc, ed) + ".jar")
  {
    var raw := ReleaseRawName(mc, ed);
    var jar := raw + ".jar";
    assert RemoveSuffix(jar, ".jar") == raw by {
      assert jar[|jar| - 4..] == ".jar";
    }
    assert !StartsWith(raw, PreviewPrefix) by { assert raw[0] == 'O'; }
    assert !IsPreview(jar) by { assert jar[0] == 'O'; }
  }

  lemma ReleaseInherit(mc: Str, ed: Str)
    requires ReleaseVersion(mc) && EditionTag(ed)
    ensures InheritOf(mc + " " + ed) == mc
  {
    assert mc + " " + ed == mc + [' '] + ed;
    SplitAppend(mc, ed, ' ');
    assert forall c :: c in mc ==> c != ' ';
    SplitWhole(mc, ' ');
  }

  /** A jar without the preview marker is downloaded under its own name. */
  lemma FileNamePlain(jar: Str, raw: Str)
    requires !IsPreview(jar) && RawName(jar) == raw
    ensures FileName(jar) == raw + ".jar"
  {
    assert "" + raw == raw;
  }

  /** The fields of a row, each from the jar's raw name. */
  lemma RowFields(jar: Str, date: Str, forge: Str)
    ensures var r := Row(jar, date, forge);
      var raw := RawName(jar);
      r.displayName == DisplayName(raw) && r.inherit == InheritOf(DisplayName(raw))
      && r.version == VersionName(raw, InheritOf(DisplayName(raw)))
      && r.fileName == FileName(jar) && r.isPreview == IsPreview(jar)
  {
  }

  /** A release row: shown as "<mc> <ed>", for Minecraft <mc>, installed as
    * "<mc>-OptiFine_HD_U_<ed>", downloaded as the linked jar. */
  lemma ReleaseRow(mc: Str, ed: Str, date: Str, forge: Str)
    requires ReleaseVersion(mc) && EditionTag(ed)
    ensures var r := Row(ReleaseRawName(mc, ed) + ".jar", date, forge);
      r.displayName == mc + " " + ed && r.inherit == mc
      && r.version == mc + "-OptiFine_HD_U_" + ed
      && r.fileName == ReleaseRawName(mc, ed) + ".jar" && !r.isPreview
  {
    var raw := ReleaseRawName(mc, ed);
    var jar := raw + ".jar";
    RowFields(jar, date, forge);
    ReleaseJar(mc, ed);
    ReleaseDisplayName(mc, ed);
    ReleaseInherit(mc, ed);
    ReleaseVersionName(mc, ed);
    FileNamePlain(jar, raw);
  }
}
