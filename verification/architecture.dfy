/** CPU architecture codes and their names, as used to match a Java
  * runtime's `OS_ARCH` against the device. */
module Architecture {
  import opened KotlinText

  const UnsupportedArch: int := -1
  const ArchArm64: int := 0x1
  const ArchArm: int := 0x2
  const ArchX86: int := 0x4
  const ArchX86_64: int := 0x8

  predicate IsSupportedArch(code: int)
  {
    code == ArchArm64 || code == ArchArm || code == ArchX86 || code == ArchX86_64
  }

  /** Lower-cased, trimmed, with every space removed. */
  function Normalize(arch: Str): Str
  {
    ReplaceAll(Trim(Lowercase(arch)), " ", "")
  }

  lemma ContainsWithin(s: Str, w: Str, v: Str)
    requires Contains(s, w) && Contains(w, v)
    ensures Contains(s, v)
  {
    var i := IndexOf(s, w);
    var j := IndexOf(w, v);
    OccursWithin(s, w, v, i, j);
    ContainsIff(s, v);
  }

  lemma OccursWithin(s: Str, w: Str, v: Str, i: int, j: int)
    requires OccursAt(s, w, i) && OccursAt(w, v, j)
    ensures OccursAt(s, v, i + j)
  {
    forall k | 0 <= k < |v| ensures s[i + j..i + j + |v|][k] == v[k] {
      assert v[k] == w[j + k] == s[i + j + k];
    }
  }

  /** The four tests of the decision, in the order they are tried. */
  predicate NamesArm64(n: Str) { Contains(n, "arm64") || n == "aarch64" }
  predicate NamesArm(n: Str) { Contains(n, "arm") || n == "aarch32" }
  predicate NamesX86_64(n: Str) { Contains(n, "x86_64") || Contains(n, "amd64") }
  predicate NamesX86(n: Str) { Contains(n, "x86") || (StartsWith(n, "i") && EndsWith(n, "86")) }

  /** The architecture code of a name; "arm64" wins over "arm" and
    * "x86_64"/"amd64" over "x86", because they are tested first. */
  function ArchAsInt(arch: Str): (r: int)
    ensures r == UnsupportedArch || IsSupportedArch(r)
    ensures var n := Normalize(arch);
      r == ArchArm64 <==> NamesArm64(n)
    ensures var n := Normalize(arch);
      r == ArchArm <==> !NamesArm64(n) && NamesArm(n)
    ensures var n := Normalize(arch);
      r == ArchX86_64 <==> !NamesArm64(n) && !NamesArm(n) && NamesX86_64(n)
    ensures var n := Normalize(arch);
      r == ArchX86 <==> !NamesArm64(n) && !NamesArm(n) && !NamesX86_64(n) && NamesX86(n)
    ensures var n := Normalize(arch);
      r == UnsupportedArch <==>
        !Contains(n, "arm") && n != "aarch32" && n != "aarch64"
        && !Contains(n, "x86") && !Contains(n, "amd64")
        && !(StartsWith(n, "i") && EndsWith(n, "86"))
  {
    ArchOfNormalized(Normalize(arch))
  }

  /** The decision on an already normalised name: the first test that
    * holds picks the code, and a name no test accepts is unsupported. */
  function ArchOfNormalized(n: Str): (r: int)
    ensures r == UnsupportedArch || IsSupportedArch(r)
    ensures r == ArchArm64 <==> NamesArm64(n)
    ensures r == ArchArm <==> !NamesArm64(n) && NamesArm(n)
    ensures r == ArchX86_64 <==> !NamesArm64(n) && !NamesArm(n) && NamesX86_64(n)
    ensures r == ArchX86 <==> !NamesArm64(n) && !NamesArm(n) && !NamesX86_64(n) && NamesX86(n)
    ensures r == UnsupportedArch <==>
        !Contains(n, "arm") && n != "aarch32" && n != "aarch64"
        && !Contains(n, "x86") && !Contains(n, "amd64")
        && !(StartsWith(n, "i") && EndsWith(n, "86"))
  {
    if NamesArm64(n) then
      ContainsWithinArm(n);
      ArchArm64
    else if NamesArm(n) then ArchArm
    else if NamesX86_64(n) then
      ContainsWithinArm(n);
      ArchX86_64
    else if NamesX86(n) then ArchX86
    else UnsupportedArch
  }

  lemma ContainsWithinArm(n: Str)
    ensures Contains(n, "x86_64") ==> Contains(n, "x86")
    ensures Contains(n, "arm64") ==> Contains(n, "arm")
  {
    if Contains(n, "x86_64") {
      PrefixContained("x86_64", "x86");
      ContainsWithin(n, "x86_64", "x86");
    }
    if Contains(n, "arm64") {
      PrefixContained("arm64", "arm");
      ContainsWithin(n, "arm64", "arm");
    }
  }

  /** The name of a code; every other code is "UNSUPPORTED_ARCH". */
  function ArchAsString(code: int): (r: Str)
    ensures !IsSupportedArch(code) ==> r == "UNSUPPORTED_ARCH"
  {
    if code == ArchArm64 then "arm64"
    else if code == ArchArm then "arm"
    else if code == ArchX86_64 then "x86_64"
    else if code == ArchX86 then "x86"
    else "UNSUPPORTED_ARCH"
  }

  /** Lower-case letters, digits and underscores only. */
  predicate LowerWord(w: Str)
  {
    forall i :: 0 <= i < |w| ==> ('a' <= w[i] <= 'z' || IsDigit(w[i]) || w[i] == '_')
  }

  lemma LowerWordTrimmed(w: Str)
    requires LowerWord(w)
    ensures Lowercase(w) == w && Trim(w) == w
  {
    assert Lowercase(w) == w;
    if |w| > 0 {
      assert !IsWhitespace(w[0]) && !IsWhitespace(w[|w| - 1]);
      assert LeadingSpace(w) == 0;
      assert w[0..] == w;
      assert TrailingSpace(w) == 0;
      assert w[0..|w| - 0] == w;
    }
  }

  /** A lower-case word is its own normal form. */
  lemma NormalizeLowerWord(w: Str)
    requires LowerWord(w)
    ensures Normalize(w) == w
  {
    LowerWordTrimmed(w);
    CharAbsent(w, " ", 0);
    ReplaceAbsent(w, " ", "");
    calc {
      Normalize(w);
      ReplaceAll(Trim(Lowercase(w)), " ", "");
      ReplaceAll(w, " ", "");
    }
  }

  /** Each literal name is decided on its own, so that the round trips
    * below only combine two small facts. */
  lemma DecideArm64()
    ensures ArchOfNormalized("arm64") == ArchArm64
  {
    PrefixContained("arm64", "arm64");
  }

  lemma DecideArm()
    ensures ArchOfNormalized("arm") == ArchArm
  {
    PrefixContained("arm", "arm");
    assert !Contains("arm", "arm64");
  }

  lemma DecideX86_64()
    ensures ArchOfNormalized("x86_64") == ArchX86_64
  {
    PrefixContained("x86_64", "x86_64");
    CharAbsent("x86_64", "arm", 0);
    CharAbsent("x86_64", "arm64", 0);
  }

  lemma DecideX86()
    ensures ArchOfNormalized("x86") == ArchX86
  {
    PrefixContained("x86", "x86");
    CharAbsent("x86", "arm", 0);
    CharAbsent("x86", "arm64", 0);
    CharAbsent("x86", "amd64", 0);
  }

  lemma DecideUnsupported()
    ensures ArchOfNormalized("unsupported_arch") == UnsupportedArch
  {
    var n: Str := "unsupported_arch";
    UnsupportedMentionsNone(n);
    DecideNone(n);
  }

  lemma UnsupportedMentionsNone(n: Str)
    requires n == "unsupported_arch"
    ensures !Contains(n, "arm") && !Contains(n, "arm64") && !Contains(n, "x86")
    ensures !Contains(n, "x86_64") && !Contains(n, "amd64") && !StartsWith(n, "i")
    ensures |n| > 7
  {
    CharAbsent(n, "arm", 2);
    CharAbsent(n, "arm64", 2);
    CharAbsent(n, "x86", 0);
    CharAbsent(n, "amd64", 1);
    CharAbsent(n, "x86_64", 0);
    assert n[..1][0] == 'u';
  }

  /** A name that mentions no known architecture is unsupported. */
  lemma DecideNone(n: Str)
    requires !Contains(n, "arm") && !Contains(n, "arm64") && !Contains(n, "x86")
    requires !Contains(n, "x86_64") && !Contains(n, "amd64") && !StartsWith(n, "i")
    requires |n| > 7
    ensures ArchOfNormalized(n) == UnsupportedArch
  {
  }

  lemma LowerUnsupported()
    ensures Lowercase("UNSUPPORTED_ARCH") == "unsupported_arch"
  {
  }

  lemma NormalizeUnsupported()
    ensures Normalize("UNSUPPORTED_ARCH") == "unsupported_arch"
  {
    LowerUnsupported();
    NormalizeOfLower("UNSUPPORTED_ARCH", "unsupported_arch");
  }

  lemma NormalizeOfLower(arch: Str, n: Str)
    requires Lowercase(arch) == n && LowerWord(n)
    ensures Normalize(arch) == n
  {
    LowerWordTrimmed(n);
    CharAbsent(n, " ", 0);
    ReplaceAbsent(n, " ", "");
    calc {
      Normalize(arch);
      ReplaceAll(Trim(Lowercase(arch)), " ", "");
      ReplaceAll(n, " ", "");
    }
  }

  /** Reading back a code's name gives the code, and every unsupported code
    * reads back as UNSUPPORTED_ARCH. */
  lemma ArchNameRoundTrip(code: int)
    ensures IsSupportedArch(code) ==> ArchAsInt(ArchAsString(code)) == code
    ensures !IsSupportedArch(code) ==> ArchAsInt(ArchAsString(code)) == UnsupportedArch
  {
    if code == ArchArm64 { NormalizeLowerWord("arm64"); DecideArm64(); }
    else if code == ArchArm { NormalizeLowerWord("arm"); DecideArm(); }
    else if code == ArchX86_64 { NormalizeLowerWord("x86_64"); DecideX86_64(); }
    else if code == ArchX86 { NormalizeLowerWord("x86"); DecideX86(); }
    else { NormalizeUnsupported(); DecideUnsupported(); }
  }

  /** A word with a letter that does not appear in a text. */
  lemma CharAbsent(s: Str, w: Str, k: nat)
    requires k < |w| && w[k] !in s
    ensures !Contains(s, w)
  {
    forall i | 0 <= i && i + |w| <= |s| ensures !OccursAt(s, w, i) {
      assert s[i..i + |w|][k] == s[i + k];
    }
    ContainsIff(s, w);
  }
}
