/** The version list filter of the game-version picker: a version is kept
  * when its type is switched on and its id contains the search text. */
module VersionFilterScreen {
  import opened KotlinText
  import opened Sequences
  import opened Models

  /** The switches and search text above the list. */
  datatype VersionFilter = VersionFilter(release: bool, snapshot: bool, oldVersions: bool, id: Str)

  /** Whether the entry's type is switched on: "release" and "snapshot" by
    * their own switch, anything else only when the `old` switch is on and
    * the type starts with "old". */
  predicate TypeShown(f: VersionFilter, versionType: Str)
  {
    if versionType == "release" then f.release
    else if versionType == "snapshot" then f.snapshot
    else f.oldVersions && StartsWith(versionType, "old")
  }

  /** Whether the id matches the search text: a blank search matches all. */
  predicate IdShown(f: VersionFilter, id: Str)
  {
    IsBlank(f.id) || Contains(id, f.id)
  }

  predicate Shown(f: VersionFilter, v: VersionEntry)
  {
    TypeShown(f, v.versionType) && IdShown(f, v.id)
  }

  /** `filterVersions`. */
  function FilterVersions(vs: seq<VersionEntry>, f: VersionFilter): (r: seq<VersionEntry>)
    ensures |r| <= |vs|
    ensures forall v :: v in r <==> v in vs && Shown(f, v)
    decreases |vs|
  {
    if |vs| == 0 then []
    else (if Shown(f, vs[0]) then [vs[0]] else []) + FilterVersions(vs[1..], f)
  }

  /** The filter keeps the order of the list. */
  lemma {:induction false} FilterKeepsOrder(vs: seq<VersionEntry>, f: VersionFilter)
    ensures IsSubsequence(FilterVersions(vs, f), vs)
    decreases |vs|
  {
    if |vs| > 0 {
      FilterKeepsOrder(vs[1..], f);
      var rest := FilterVersions(vs[1..], f);
      if Shown(f, vs[0]) {
        assert FilterVersions(vs, f) == [vs[0]] + rest;
        assert ([vs[0]] + rest)[1..] == rest;
      } else {
        assert FilterVersions(vs, f) == rest;
        SkipHead(rest, vs);
      }
    }
  }

  /** The filter keeps every shown version as many times as the list holds
    * it, and no hidden one. */
  lemma {:induction false} FilterKeepsCounts(vs: seq<VersionEntry>, f: VersionFilter)
    ensures forall v :: multiset(FilterVersions(vs, f))[v] == if Shown(f, v) then multiset(vs)[v] else 0
    decreases |vs|
  {
    if |vs| > 0 {
      FilterKeepsCounts(vs[1..], f);
      assert vs == [vs[0]] + vs[1..];
      assert multiset(vs) == multiset([vs[0]]) + multiset(vs[1..]);
    }
  }

  /** Each switch decides its own type; other types need "old" as a prefix
    * and the `old` switch; a blank search hides nothing. */
  lemma FilterCases(f: VersionFilter, v: VersionEntry)
    ensures v.versionType == "release" ==> (TypeShown(f, v.versionType) <==> f.release)
    ensures v.versionType == "snapshot" ==> (TypeShown(f, v.versionType) <==> f.snapshot)
    ensures v.versionType != "release" && v.versionType != "snapshot" ==>
      (TypeShown(f, v.versionType) <==> f.oldVersions && StartsWith(v.versionType, "old"))
    ensures IsBlank(f.id) ==> (Shown(f, v) <==> TypeShown(f, v.versionType))
    ensures !IsBlank(f.id) ==> (Shown(f, v) <==> TypeShown(f, v.versionType) && exists i :: OccursAt(v.id, f.id, i))
  {
    ContainsIff(v.id, f.id);
  }
}
