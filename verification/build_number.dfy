/** Forge-style build numbers `major.minor.build.revision`, shared by the
  * Forge and NeoForge version lists: parsing from a loose version text,
  * ordering, printing and the OptiFine requirement test. */
module BuildNumber {
  import opened Wrappers
  import opened KotlinText
  import StringUtils

  datatype BuildVersion = BuildVersion(major: int, minor: int, build: int, revision: int)

  /** The characters a version text is split at. */
  const BuildSeparators: set<char> := {'.', '-'}

  /** `mapNotNull { it.toIntOrNull() }`: the segments that are `Int`s. */
  function Numbers(parts: seq<Str>): (r: seq<int>)
    ensures |r| <= |parts|
    ensures forall i :: 0 <= i < |r| ==> InInt(r[i])
    ensures (forall i :: 0 <= i < |parts| ==> '-' !in parts[i]) ==> forall i :: 0 <= i < |r| ==> r[i] >= 0
  {
    if |parts| == 0 then []
    else
      assert forall i :: 0 < i < |parts| ==> parts[i] == parts[1..][i - 1];
      (if ToIntOrNull(parts[0]).Some? then [ToIntOrNull(parts[0]).value] else []) + Numbers(parts[1..])
  }

  /** `getOrElse(i) { 0 }`. */
  function GetOrZero(ns: seq<int>, i: nat): int
  {
    if i < |ns| then ns[i] else 0
  }

  /** The first four numbers, missing ones 0. */
  function Padded(ns: seq<int>): BuildVersion
  {
    BuildVersion(GetOrZero(ns, 0), GetOrZero(ns, 1), GetOrZero(ns, 2), GetOrZero(ns, 3))
  }

  function Components(v: BuildVersion): seq<int>
  {
    [v.major, v.minor, v.build, v.revision]
  }

  /** What a parsed build number looks like: four non-negative `Int`s. */
  predicate Parsed(v: BuildVersion)
  {
    0 <= v.major <= IntMax && 0 <= v.minor <= IntMax && 0 <= v.build <= IntMax && 0 <= v.revision <= IntMax
  }

  /** `parse`: the `Int` segments between '.' and '-', the first four of
    * them, missing ones 0. A '-' is always a separator, so no component is
    * ever negative. */
  function Parse(s: Str): (v: BuildVersion)
    ensures Parsed(v)
  {
    Padded(Numbers(SplitOn(s, BuildSeparators)))
  }

  /** `toString`: the four components joined by '.'. */
  function ToString(v: BuildVersion): Str
  {
    IntToString(v.major) + "." + IntToString(v.minor) + "." + IntToString(v.build) + "." + IntToString(v.revision)
  }

  // ---------------------------------------------------------------------
  // Parsing lemmas
  // ---------------------------------------------------------------------

  /** The decimal texts of some numbers. */
  function Texts(ns: seq<int>): (r: seq<Str>)
    ensures |r| == |ns|
    ensures forall i :: 0 <= i < |ns| ==> r[i] == IntToString(ns[i])
  {
    seq(|ns|, i requires 0 <= i < |ns| => IntToString(ns[i]))
  }

  lemma {:induction false} NumbersAppend(a: seq<Str>, b: seq<Str>)
    ensures Numbers(a + b) == Numbers(a) + Numbers(b)
    decreases |a|
  {
    if |a| > 0 {
      NumbersAppend(a[1..], b);
      assert (a + b)[1..] == a[1..] + b;
      assert (a + b)[0] == a[0];
      var h := if ToIntOrNull(a[0]).Some? then [ToIntOrNull(a[0]).value] else [];
      ConcatAssoc(h, Numbers(a[1..]), Numbers(b));
    } else {
      assert a + b == b;
    }
  }

  lemma NumbersCons(parts: seq<Str>, n: int)
    requires |parts| > 0 && ToIntOrNull(parts[0]) == Some(n)
    ensures Numbers(parts) == [n] + Numbers(parts[1..])
  {
  }

  /** Reading the texts of `Int`s gives the numbers back. */
  lemma {:induction false} NumbersOfTexts(ns: seq<int>)
    requires forall i :: 0 <= i < |ns| ==> InInt(ns[i])
    ensures Numbers(Texts(ns)) == ns
    decreases |ns|
  {
    if |ns| > 0 {
      var ts := Texts(ns);
      IntStringRoundTrip(ns[0]);
      NumbersCons(ts, ns[0]);
      assert ts[1..] == Texts(ns[1..]);
      NumbersOfTexts(ns[1..]);
      assert ns == [ns[0]] + ns[1..];
    }
  }

  /** The text of a non-negative number holds digits only. */
  lemma DigitsOnly(n: int, ds: set<char>)
    requires n >= 0
    requires forall c :: IsDigit(c) ==> c !in ds
    ensures forall c :: c in IntToString(n) ==> c !in ds
  {
    NatDigitsHaveNoSign(n);
  }

  /** Numbers joined by '.' split back into their texts at any separator set
    * that holds '.' and no digit. */
  lemma {:induction false} SplitJoined(ns: seq<int>, ds: set<char>)
    requires |ns| >= 1 && forall i :: 0 <= i < |ns| ==> ns[i] >= 0
    requires '.' in ds && forall c :: IsDigit(c) ==> c !in ds
    ensures SplitOn(JoinWith(Texts(ns), "."), ds) == Texts(ns)
    decreases |ns|
  {
    var ts := Texts(ns);
    DigitsOnly(ns[0], ds);
    if |ns| == 1 {
      SplitOnWhole(ts[0], ds);
    } else {
      SplitJoined(ns[1..], ds);
      assert ts[1..] == Texts(ns[1..]);
      assert JoinWith(ts, ".") == ts[0] + ['.'] + JoinWith(ts[1..], ".");
      SplitOnAppend(ts[0], JoinWith(ts[1..], "."), '.', ds);
      SplitOnWhole(ts[0], ds);
    }
  }

  /** Non-negative numbers joined by '.' parse as those numbers, padded
    * with zeros to four and cut after four. */
  lemma ParseDotted(ns: seq<int>)
    requires |ns| >= 1 && forall i :: 0 <= i < |ns| ==> 0 <= ns[i] <= IntMax
    ensures Parse(JoinWith(Texts(ns), ".")) == Padded(ns)
  {
    SplitJoined(ns, BuildSeparators);
    NumbersOfTexts(ns);
  }

  lemma ToStringJoined(v: BuildVersion)
    ensures ToString(v) == JoinWith(Texts(Components(v)), ".")
  {
    var ts := Texts(Components(v));
    assert ts[1..][1..][1..] == [ts[3]];
    assert JoinWith(ts[1..][1..], ".") == ts[2] + "." + ts[3];
    assert JoinWith(ts[1..], ".") == ts[1] + "." + (ts[2] + "." + ts[3]);
    assert JoinWith(ts, ".") == ts[0] + "." + (ts[1] + "." + (ts[2] + "." + ts[3]));
  }

  /** Printing a parsed build number and parsing it again gives it back. */
  lemma ParseToString(v: BuildVersion)
    requires Parsed(v)
    ensures Parse(ToString(v)) == v
  {
    ToStringJoined(v);
    ParseDotted(Components(v));
  }

  /** A segment that is not a number is skipped. */
  lemma ParseSkipsWord(w: Str, s: Str)
    requires forall c :: c in w ==> c !in BuildSeparators
    requires ToIntOrNull(w).None?
    ensures Parse(w + "." + s) == Parse(s)
  {
    assert w + "." + s == w + ['.'] + s;
    SplitOnAppend(w, s, '.', BuildSeparators);
    SplitOnWhole(w, BuildSeparators);
    NumbersAppend([w], SplitOn(s, BuildSeparators));
  }

  /** Once a text has four numbers, whatever follows a '-' is ignored. */
  lemma ParseIgnoresTail(x: Str, y: Str)
    requires |Numbers(SplitOn(x, BuildSeparators))| >= 4
    ensures Parse(x + "-" + y) == Parse(x)
  {
    var px, py := SplitOn(x, BuildSeparators), SplitOn(y, BuildSeparators);
    assert x + "-" + y == x + ['-'] + y;
    SplitOnAppend(x, y, '-', BuildSeparators);
    NumbersAppend(px, py);
    PaddedIgnoresTail(Numbers(px), Numbers(py));
  }

  /** Only the first four numbers count. */
  lemma PaddedIgnoresTail(a: seq<int>, b: seq<int>)
    requires |a| >= 4
    ensures Padded(a + b) == Padded(a)
  {
  }

  // ---------------------------------------------------------------------
  // Ordering
  // ---------------------------------------------------------------------

  /** `Int.compareTo`. */
  function Sign(a: int, b: int): int
  {
    if a < b then -1 else if a > b then 1 else 0
  }

  /** `compareTo`: major, then minor, then build, then revision. */
  function Compare(a: BuildVersion, b: BuildVersion): (r: int)
    ensures -1 <= r <= 1
    ensures r == 0 <==> a == b
  {
    if a.major != b.major then Sign(a.major, b.major)
    else if a.minor != b.minor then Sign(a.minor, b.minor)
    else if a.build != b.build then Sign(a.build, b.build)
    else Sign(a.revision, b.revision)
  }

  /** The order is the segment-wise order of dotted versions applied to the
    * four components. */
  lemma CompareLexicographic(a: BuildVersion, b: BuildVersion)
    ensures Compare(a, b) == StringUtils.ComparePartsFrom(Components(a), Components(b), 0)
  {
    var p, q := Components(a), Components(b);
    assert StringUtils.ComparePartsFrom(p, q, 4) == 0;
    assert StringUtils.PartAt(p, 3) == a.revision && StringUtils.PartAt(q, 3) == b.revision;
    assert StringUtils.ComparePartsFrom(p, q, 3) == Sign(a.revision, b.revision);
    assert StringUtils.PartAt(p, 2) == a.build && StringUtils.PartAt(q, 2) == b.build;
    var c2 := if a.build != b.build then Sign(a.build, b.build) else Sign(a.revision, b.revision);
    assert StringUtils.ComparePartsFrom(p, q, 2) == c2;
    assert StringUtils.PartAt(p, 1) == a.minor && StringUtils.PartAt(q, 1) == b.minor;
    var c1 := if a.minor != b.minor then Sign(a.minor, b.minor) else c2;
    assert StringUtils.ComparePartsFrom(p, q, 1) == c1;
    assert StringUtils.PartAt(p, 0) == a.major && StringUtils.PartAt(q, 0) == b.major;
  }

  /** It is a total order: antisymmetric and transitive. */
  lemma CompareTotalOrder(a: BuildVersion, b: BuildVersion, c: BuildVersion)
    ensures Compare(a, b) == -Compare(b, a)
    ensures Compare(a, b) <= 0 && Compare(b, c) <= 0 ==> Compare(a, c) <= 0
  {
    CompareLexicographic(a, b);
    CompareLexicographic(b, a);
    CompareLexicographic(b, c);
    CompareLexicographic(a, c);
    StringUtils.ComparePartsAntisymmetric(Components(a), Components(b), 0);
    if Compare(a, b) <= 0 && Compare(b, c) <= 0 {
      StringUtils.ComparePartsTransitive(Components(a), Components(b), Components(c), 0);
    }
  }

  // ---------------------------------------------------------------------
  // compareOptiFineRequired
  // ---------------------------------------------------------------------

  /** `compareOptiFineRequired`: a dotted requirement is compared with the
    * printed build number segment by segment; any other requirement is
    * compared with the printed revision. */
  function CompareOptiFineRequired(v: BuildVersion, required: Str): bool
  {
    if '.' in required then StringUtils.CompareClassVersions(ToString(v), required) == 0
    else IntToString(v.revision) == required
  }

  /** A dotted requirement matches exactly when its segments (missing and
    * non-numeric ones 0) are the four components, then zeros; an undotted
    * one only when it reads as the revision. */
  lemma OptiFineRequirement(v: BuildVersion, required: Str)
    requires Parsed(v)
    ensures '.' in required ==> (CompareOptiFineRequired(v, required) <==>
      forall j :: 0 <= j ==> StringUtils.PartAt(Components(v), j) == StringUtils.PartAt(StringUtils.VersionParts(required), j))
    ensures '.' !in required && CompareOptiFineRequired(v, required) ==> ToIntOrNull(required) == Some(v.revision)
  {
    PrintedParts(v);
    IntStringRoundTrip(v.revision);
    StringUtils.CompareZeroIff(ToString(v), required);
  }

  /** The printed build number reads back, segment by segment, as its four
    * components. */
  lemma PrintedParts(v: BuildVersion)
    requires Parsed(v)
    ensures StringUtils.VersionParts(ToString(v)) == Components(v)
  {
    ToStringJoined(v);
    SplitJoined(Components(v), {'.'});
    NumbersOfTexts(Components(v));
    var parts := StringUtils.VersionParts(ToString(v));
    forall i | 0 <= i < 4 ensures parts[i] == Components(v)[i] {
      IntStringRoundTrip(Components(v)[i]);
    }
  }

  /** A build number meets its own printed form and its own revision. */
  lemma OptiFineOwnVersion(v: BuildVersion)
    requires Parsed(v)
    ensures CompareOptiFineRequired(v, ToString(v))
    ensures CompareOptiFineRequired(v, IntToString(v.revision))
  {
    assert ToString(v)[|IntToString(v.major)|] == '.';
    DigitsOnly(v.revision, {'.'});
    StringUtils.CompareZeroIff(ToString(v), ToString(v));
  }
}
