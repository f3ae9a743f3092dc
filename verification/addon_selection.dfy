/** The addon picker of the game download screen: which OptiFine, Forge,
  * NeoForge, Fabric and Quilt versions are chosen, which lists are marked
  * incompatible with which loader, and the tests that decide whether an
  * OptiFine build and a Forge build go together. A list whose mark set is
  * not empty cannot be opened, and clears its own choice. */
module AddonSelection {
  import opened Wrappers
  import opened KotlinText
  import opened BuildNumber
  import StringUtils
  import OptiFineVersions

  datatype Loader = OptiFine | Forge | NeoForge | Fabric | Quilt

  /** The loaders that share a game with no other addon. */
  predicate Exclusive(l: Loader)
  {
    l == NeoForge || l == Fabric || l == Quilt
  }

  /** The position of a loader's list on the screen and in `getAllAddons`. */
  function Rank(l: Loader): nat
  {
    match l
    case OptiFine => 0
    case Forge => 1
    case NeoForge => 2
    case Fabric => 3
    case Quilt => 4
  }

  type OptiFineEntry = OptiFineVersions.OptiFineVersion

  /** The fields of a Forge list entry the picker reads. */
  datatype ForgeEntry = ForgeEntry(versionName: Str, version: BuildVersion, category: Str)

  // ---------------------------------------------------------------------
  // Whether OptiFine and Forge go together
  // ---------------------------------------------------------------------

  /** `isOptiFineCompatibleWithForge`: an OptiFine build that states no
    * Forge requirement fits none, a blank requirement fits every build, and
    * any other one is the build number's requirement test. */
  predicate OptiFineFitsForge(of: OptiFineEntry, forge: ForgeEntry)
  {
    of.forgeVersion.Some?
    && (IsBlank(of.forgeVersion.value) || CompareOptiFineRequired(forge.version, of.forgeVersion.value))
  }

  /** What the pair test means: a dotted requirement names the whole build
    * number, an undotted one its revision. */
  lemma OptiFineFitsForgeCases(of: OptiFineEntry, forge: ForgeEntry)
    requires Parsed(forge.version)
    ensures of.forgeVersion.None? ==> !OptiFineFitsForge(of, forge)
    ensures of.forgeVersion.Some? && IsBlank(of.forgeVersion.value) ==> OptiFineFitsForge(of, forge)
    ensures of.forgeVersion.Some? && !IsBlank(of.forgeVersion.value) && '.' in of.forgeVersion.value ==>
      (OptiFineFitsForge(of, forge) <==> forall j :: 0 <= j ==>
        StringUtils.PartAt(Components(forge.version), j) == StringUtils.PartAt(StringUtils.VersionParts(of.forgeVersion.value), j))
    ensures of.forgeVersion.Some? && !IsBlank(of.forgeVersion.value) && '.' !in of.forgeVersion.value ==>
      (OptiFineFitsForge(of, forge) ==> ToIntOrNull(of.forgeVersion.value) == Some(forge.version.revision))
    ensures of.forgeVersion == Some(ToString(forge.version)) ==> OptiFineFitsForge(of, forge)
    ensures of.forgeVersion == Some(IntToString(forge.version.revision)) ==> OptiFineFitsForge(of, forge)
  {
    if of.forgeVersion.Some? {
      OptiFineRequirement(forge.version, of.forgeVersion.value);
    }
    OptiFineOwnVersion(forge.version);
  }

  /** The test the list checks and the list filters apply to one Forge
    * build and a requirement, as written: a missing requirement never
    * matches, an empty one always, and any other one is compared with the
    * printed build number by `compareClassVersions`, dotted or not. */
  predicate MeetsAsWritten(forge: ForgeEntry, required: Option<Str>)
  {
    required.Some?
    && (|required.value| == 0 || StringUtils.CompareClassVersions(ToString(forge.version), required.value) == 0)
  }

  /** An undotted requirement such as "2847" (from a "Forge #2847" column)
    * names a revision: the pair test accepts the build with that revision,
    * but the list test compares it with the whole build number and refuses
    * every build whose major number is not the revision. */
  lemma UndottedRequirementAsWritten(of: OptiFineEntry, forge: ForgeEntry)
    requires Parsed(forge.version) && forge.version.major != forge.version.revision
    requires of.forgeVersion == Some(IntToString(forge.version.revision))
    ensures OptiFineFitsForge(of, forge)
    ensures !MeetsAsWritten(forge, of.forgeVersion)
  {
    var v := forge.version;
    var req := IntToString(v.revision);
    OptiFineOwnVersion(v);
    PrintedParts(v);
    DigitsOnly(v.revision, {'.'});
    SplitWhole(req, '.');
    IntStringRoundTrip(v.revision);
    assert StringUtils.PartAt(StringUtils.VersionParts(req), 0) == v.revision;
    assert StringUtils.PartAt(StringUtils.VersionParts(ToString(v)), 0) == v.major;
  }

  /** The list test with the pair test's reading of the requirement: a
    * missing requirement never matches, an empty one always, any other one
    * is the build number's requirement test. */
  predicate Meets(forge: ForgeEntry, required: Option<Str>)
  {
    required.Some?
    && (|required.value| == 0 || CompareOptiFineRequired(forge.version, required.value))
  }

  /** A requirement as the OptiFine list produces it (trimmed): blank only
    * when empty. */
  predicate TidyRequirement(of: OptiFineEntry)
  {
    of.forgeVersion.Some? && IsBlank(of.forgeVersion.value) ==> |of.forgeVersion.value| == 0
  }

  /** For such requirements the list test and the pair test agree. */
  lemma MeetsAgrees(of: OptiFineEntry, forge: ForgeEntry)
    requires TidyRequirement(of)
    ensures Meets(forge, of.forgeVersion) <==> OptiFineFitsForge(of, forge)
  {
    if of.forgeVersion.Some? && |of.forgeVersion.value| == 0 {
      assert IsBlank(of.forgeVersion.value);
    }
  }

  /** `isOptiFineCompatibleWithForgeList`: no requirement fits nothing, an
    * empty one fits without a list, any other one needs a loaded list with
    * a build that meets it. */
  predicate OptiFineFitsForgeList(of: OptiFineEntry, forges: Option<seq<ForgeEntry>>)
  {
    of.forgeVersion.Some?
    && (|of.forgeVersion.value| == 0
        || (forges.Some? && exists i :: 0 <= i < |forges.value| && Meets(forges.value[i], of.forgeVersion)))
  }

  /** An OptiFine build fits a loaded Forge list exactly when it fits one
    * of its builds on its own, or asks for nothing. */
  lemma OptiFineListAgrees(of: OptiFineEntry, forges: seq<ForgeEntry>)
    requires TidyRequirement(of) && |forges| > 0
    ensures OptiFineFitsForgeList(of, Some(forges)) <==> exists i :: 0 <= i < |forges| && OptiFineFitsForge(of, forges[i])
  {
    forall i | 0 <= i < |forges| ensures Meets(forges[i], of.forgeVersion) <==> OptiFineFitsForge(of, forges[i]) {
      MeetsAgrees(of, forges[i]);
    }
    if of.forgeVersion.Some? && |of.forgeVersion.value| == 0 {
      MeetsAgrees(of, forges[0]);
    }
  }

  /** `isForgeCompatibleWithOptiFineList` from entry `i` on: entries with
    * no requirement are skipped, and the first entry the build meets ends
    * the scan. */
  function ForgeFitsOptiFineFrom(forge: ForgeEntry, ofs: seq<OptiFineEntry>, i: nat): (r: bool)
    requires i <= |ofs|
    ensures r <==> exists j :: i <= j < |ofs| && Meets(forge, ofs[j].forgeVersion)
    decreases |ofs| - i
  {
    if i == |ofs| then false
    else if ofs[i].forgeVersion.None? then ForgeFitsOptiFineFrom(forge, ofs, i + 1)
    else if |ofs[i].forgeVersion.value| == 0 then true
    else if CompareOptiFineRequired(forge.version, ofs[i].forgeVersion.value) then true
    else ForgeFitsOptiFineFrom(forge, ofs, i + 1)
  }

  /** An unloaded OptiFine list fits no Forge build. */
  function ForgeFitsOptiFineList(forge: ForgeEntry, ofs: Option<seq<OptiFineEntry>>): (r: bool)
    ensures r <==> ofs.Some? && exists j :: 0 <= j < |ofs.value| && Meets(forge, ofs.value[j].forgeVersion)
  {
    ofs.Some? && ForgeFitsOptiFineFrom(forge, ofs.value, 0)
  }

  /** A Forge build fits a list of tidy OptiFine entries exactly when it
    * fits one of them on its own. */
  lemma ForgeListAgrees(forge: ForgeEntry, ofs: seq<OptiFineEntry>)
    requires forall j :: 0 <= j < |ofs| ==> TidyRequirement(ofs[j])
    ensures ForgeFitsOptiFineList(forge, Some(ofs)) <==> exists j :: 0 <= j < |ofs| && OptiFineFitsForge(ofs[j], forge)
  {
    forall j | 0 <= j < |ofs| ensures Meets(forge, ofs[j].forgeVersion) <==> OptiFineFitsForge(ofs[j], forge) {
      MeetsAgrees(ofs[j], forge);
    }
  }

  // ---------------------------------------------------------------------
  // What the lists show
  // ---------------------------------------------------------------------

  /** The entries of `xs` that `keep` accepts, in order. */
  function Keep<T(!new)>(xs: seq<T>, keep: T -> bool): (r: seq<T>)
    ensures |r| <= |xs|
    ensures forall x :: x in r <==> x in xs && keep(x)
  {
    if |xs| == 0 then []
    else (if keep(xs[0]) then [xs[0]] else []) + Keep(xs[1..], keep)
  }

  /** With a Forge build chosen, the OptiFine list shows the entries whose
    * requirement it meets. */
  predicate OptiFineShown(of: OptiFineEntry, forge: Option<ForgeEntry>)
  {
    forge.None? || Meets(forge.value, of.forgeVersion)
  }

  /** With an OptiFine build chosen, the Forge list shows the builds that
    * meet its requirement. */
  predicate ForgeShown(forge: ForgeEntry, optifine: Option<OptiFineEntry>)
  {
    optifine.None? || Meets(forge, optifine.value.forgeVersion)
  }

  /** `checkForgeCompatibilityError`: a list with a "universal" or "client"
    * build cannot be installed automatically. */
  predicate ForgeListError(forges: seq<ForgeEntry>)
  {
    exists i :: 0 <= i < |forges| && (forges[i].category == "universal" || forges[i].category == "client")
  }

  /** The OptiFine entries on screen. */
  function ShownOptiFines(ofs: Option<seq<OptiFineEntry>>, forge: Option<ForgeEntry>): (r: Option<seq<OptiFineEntry>>)
    ensures r.None? <==> ofs.None?
    ensures r.Some? ==> forall of :: of in r.value <==> of in ofs.value && OptiFineShown(of, forge)
  {
    if ofs.None? then None else Some(Keep(ofs.value, of => OptiFineShown(of, forge)))
  }

  /** The Forge entries on screen: none when the list has an error. */
  function ShownForges(forges: Option<seq<ForgeEntry>>, optifine: Option<OptiFineEntry>): (r: Option<seq<ForgeEntry>>)
    ensures r.None? <==> forges.None? || ForgeListError(forges.value)
    ensures r.Some? ==> forall f :: f in r.value <==> f in forges.value && ForgeShown(f, optifine)
  {
    if forges.None? || ForgeListError(forges.value) then None
    else Some(Keep(forges.value, f => ForgeShown(f, optifine)))
  }

  /** With a Forge build chosen, the OptiFine list shows exactly the tidy
    * entries that fit it. */
  lemma ShownOptiFinesFit(ofs: seq<OptiFineEntry>, forge: ForgeEntry)
    requires forall j :: 0 <= j < |ofs| ==> TidyRequirement(ofs[j])
    ensures forall of :: of in ShownOptiFines(Some(ofs), Some(forge)).value <==> of in ofs && OptiFineFitsForge(of, forge)
  {
    forall of | of in ofs ensures OptiFineShown(of, Some(forge)) <==> OptiFineFitsForge(of, forge) {
      MeetsAgrees(of, forge);
    }
  }

  // ---------------------------------------------------------------------
  // Incompatibility marks
  // ---------------------------------------------------------------------

  /** For each list, the loaders it is marked incompatible with. */
  datatype Marks = Marks(optifine: set<Loader>, forge: set<Loader>, neoforge: set<Loader>,
                         fabric: set<Loader>, quilt: set<Loader>)

  const NoMarks: Marks := Marks({}, {}, {}, {}, {})

  function MarksOf(m: Marks, l: Loader): set<Loader>
  {
    match l
    case OptiFine => m.optifine
    case Forge => m.forge
    case NeoForge => m.neoforge
    case Fabric => m.fabric
    case Quilt => m.quilt
  }

  /** `incompatibleWithX += listOf(t)` for every list X in `lists`. */
  function Mark(m: Marks, lists: set<Loader>, t: Loader): (r: Marks)
    ensures forall l :: MarksOf(r, l) == (if l in lists then MarksOf(m, l) + {t} else MarksOf(m, l))
  {
    Marks(if OptiFine in lists then m.optifine + {t} else m.optifine,
          if Forge in lists then m.forge + {t} else m.forge,
          if NeoForge in lists then m.neoforge + {t} else m.neoforge,
          if Fabric in lists then m.fabric + {t} else m.fabric,
          if Quilt in lists then m.quilt + {t} else m.quilt)
  }

  /** `incompatibleWithX -= listOf(t)` for every list X in `lists`. */
  function Unmark(m: Marks, lists: set<Loader>, t: Loader): (r: Marks)
    ensures forall l :: MarksOf(r, l) == (if l in lists then MarksOf(m, l) - {t} else MarksOf(m, l))
  {
    Marks(if OptiFine in lists then m.optifine - {t} else m.optifine,
          if Forge in lists then m.forge - {t} else m.forge,
          if NeoForge in lists then m.neoforge - {t} else m.neoforge,
          if Fabric in lists then m.fabric - {t} else m.fabric,
          if Quilt in lists then m.quilt - {t} else m.quilt)
  }

  const AllLoaders: set<Loader> := {OptiFine, Forge, NeoForge, Fabric, Quilt}

  lemma EveryLoader()
    ensures forall k: Loader :: k in AllLoaders
  {
    forall k: Loader ensures k in AllLoaders {
      match k
      case OptiFine =>
      case Forge =>
      case NeoForge =>
      case Fabric =>
      case Quilt =>
    }
  }

  /** Every list but `l`'s. */
  function Others(l: Loader): (r: set<Loader>)
    ensures forall k :: k in r <==> k != l
  {
    EveryLoader();
    AllLoaders - {l}
  }

  // ---------------------------------------------------------------------
  // The current choice
  // ---------------------------------------------------------------------

  /** A chosen addon version, as `getAllAddons` lists it. */
  datatype Addon =
    | OptiFineAddon(optifine: OptiFineEntry)
    | ForgeAddon(forge: ForgeEntry)
    | NeoForgeAddon(neoforge: Str)
    | FabricAddon(fabric: Str)
    | QuiltAddon(quilt: Str)

  function LoaderOf(a: Addon): Loader
  {
    match a
    case OptiFineAddon(_) => OptiFine
    case ForgeAddon(_) => Forge
    case NeoForgeAddon(_) => NeoForge
    case FabricAddon(_) => Fabric
    case QuiltAddon(_) => Quilt
  }

  datatype Selection = Selection(
    optifine: Option<OptiFineEntry>,
    forge: Option<ForgeEntry>,
    neoforge: Option<Str>,
    fabric: Option<Str>,
    quilt: Option<Str>,
    marks: Marks)

  const Initial: Selection := Selection(None, None, None, None, None, NoMarks)

  /** The version chosen in list `l`, if any. */
  function Slot(s: Selection, l: Loader): (r: Option<Addon>)
    ensures r.Some? ==> LoaderOf(r.value) == l
  {
    match l
    case OptiFine => if s.optifine.Some? then Some(OptiFineAddon(s.optifine.value)) else None
    case Forge => if s.forge.Some? then Some(ForgeAddon(s.forge.value)) else None
    case NeoForge => if s.neoforge.Some? then Some(NeoForgeAddon(s.neoforge.value)) else None
    case Fabric => if s.fabric.Some? then Some(FabricAddon(s.fabric.value)) else None
    case Quilt => if s.quilt.Some? then Some(QuiltAddon(s.quilt.value)) else None
  }

  predicate IsSelected(s: Selection, l: Loader)
  {
    Slot(s, l).Some?
  }

  /** The loader at a position of the screen. */
  function LoaderAt(n: nat): (l: Loader)
    requires n < 5
    ensures Rank(l) == n
  {
    if n == 0 then OptiFine else if n == 1 then Forge else if n == 2 then NeoForge else if n == 3 then Fabric else Quilt
  }

  /** The choices of the first `n` lists, in screen order. */
  function AddonsUpTo(s: Selection, n: nat): (r: seq<Addon>)
    requires n <= 5
    ensures forall i :: 0 <= i < |r| ==> Slot(s, LoaderOf(r[i])) == Some(r[i]) && Rank(LoaderOf(r[i])) < n
    ensures forall l :: Rank(l) < n && IsSelected(s, l) ==> Slot(s, l).value in r
    ensures forall i, j :: 0 <= i < j < |r| ==> Rank(LoaderOf(r[i])) < Rank(LoaderOf(r[j]))
  {
    if n == 0 then []
    else
      var l := LoaderAt(n - 1);
      AddonsUpTo(s, n - 1) + (if IsSelected(s, l) then [Slot(s, l).value] else [])
  }

  /** `getAllAddons`: the chosen versions in screen order. */
  function AllAddons(s: Selection): (r: seq<Addon>)
    ensures forall a :: a in r <==> Slot(s, LoaderOf(a)) == Some(a)
    ensures forall i, j :: 0 <= i < j < |r| ==> Rank(LoaderOf(r[i])) < Rank(LoaderOf(r[j]))
  {
    AddonsUpTo(s, 5)
  }

  /** The list `l` with its choice set to nothing (`xVersion = null`),
    * marks untouched. */
  function Drop(s: Selection, l: Loader): (r: Selection)
    ensures Slot(r, l).None?
    ensures forall k :: k != l ==> Slot(r, k) == Slot(s, k)
    ensures r.marks == s.marks
  {
    match l
    case OptiFine => s.(optifine := None)
    case Forge => s.(forge := None)
    case NeoForge => s.(neoforge := None)
    case Fabric => s.(fabric := None)
    case Quilt => s.(quilt := None)
  }

  /** The choice of list `l` removed, through its `onValueChange(null)`:
    * the loader no longer marks any other list. */
  function ClearAddon(s: Selection, l: Loader): (r: Selection)
    ensures Slot(r, l).None?
    ensures forall k :: k != l ==> Slot(r, k) == Slot(s, k)
    ensures MarksOf(r.marks, l) == MarksOf(s.marks, l)
    ensures forall k :: k != l ==> MarksOf(r.marks, k) == MarksOf(s.marks, k) - {l}
  {
    Drop(s, l).(marks := Unmark(s.marks, Others(l), l))
  }

  /** Choosing NeoForge, Fabric or Quilt: every other choice is dropped and
    * every other list is marked with that loader. */
  function PickExclusive(s: Selection, l: Loader, version: Str): (r: Selection)
    requires Exclusive(l)
    ensures forall k :: IsSelected(r, k) <==> k == l
    ensures l == NeoForge ==> r.neoforge == Some(version)
    ensures l == Fabric ==> r.fabric == Some(version)
    ensures l == Quilt ==> r.quilt == Some(version)
    ensures MarksOf(r.marks, l) == MarksOf(s.marks, l)
    ensures forall k :: k != l ==> MarksOf(r.marks, k) == MarksOf(s.marks, k) + {l}
  {
    var m := Mark(s.marks, Others(l), l);
    match l
    case NeoForge => Selection(None, None, Some(version), None, None, m)
    case Fabric => Selection(None, None, None, Some(version), None, m)
    case Quilt => Selection(None, None, None, None, Some(version), m)
  }

  /** Whether a newly chosen OptiFine build goes with Forge: with the chosen
    * Forge build when there is one, else with the Forge list. */
  predicate OptiFineFitsChoice(s: Selection, of: OptiFineEntry, forges: Option<seq<ForgeEntry>>)
  {
    if s.forge.Some? then OptiFineFitsForge(of, s.forge.value) else OptiFineFitsForgeList(of, forges)
  }

  /** Choosing an OptiFine build: Forge stays only when it fits and the
    * Forge list is marked with OptiFine exactly when it does not; NeoForge,
    * Fabric and Quilt are dropped and marked. */
  function PickOptiFine(s: Selection, of: OptiFineEntry, forges: Option<seq<ForgeEntry>>): (r: Selection)
    ensures r.optifine == Some(of)
    ensures r.forge == (if OptiFineFitsChoice(s, of, forges) then s.forge else None)
    ensures forall k :: Exclusive(k) ==> !IsSelected(r, k) && MarksOf(r.marks, k) == MarksOf(s.marks, k) + {OptiFine}
    ensures OptiFine in MarksOf(r.marks, Forge) <==> !OptiFineFitsChoice(s, of, forges)
    ensures MarksOf(r.marks, Forge) - {OptiFine} == MarksOf(s.marks, Forge) - {OptiFine}
    ensures MarksOf(r.marks, OptiFine) == MarksOf(s.marks, OptiFine)
  {
    var fits := OptiFineFitsChoice(s, of, forges);
    var m := if fits then Unmark(s.marks, {Forge}, OptiFine) else Mark(s.marks, {Forge}, OptiFine);
    Selection(Some(of), if fits then s.forge else None, None, None, None,
              Mark(m, {NeoForge, Fabric, Quilt}, OptiFine))
  }

  /** Whether a newly chosen Forge build goes with OptiFine: with the chosen
    * OptiFine build when there is one, else with the OptiFine list. */
  predicate ForgeFitsChoice(s: Selection, forge: ForgeEntry, ofs: Option<seq<OptiFineEntry>>)
  {
    if s.optifine.Some? then OptiFineFitsForge(s.optifine.value, forge) else ForgeFitsOptiFineList(forge, ofs)
  }

  /** `isForgeCompatibleWithOptiFineList` as written, from entry `i` on:
    * entries with no requirement are skipped, an empty requirement ends the
    * scan with a match, and any other one is compared with the printed
    * build number by `compareClassVersions`. */
  function ForgeFitsOptiFineFromAsWritten(forge: ForgeEntry, ofs: seq<OptiFineEntry>, i: nat): (r: bool)
    requires i <= |ofs|
    ensures r <==> exists j :: i <= j < |ofs| && MeetsAsWritten(forge, ofs[j].forgeVersion)
    decreases |ofs| - i
  {
    if i == |ofs| then false
    else if ofs[i].forgeVersion.None? then ForgeFitsOptiFineFromAsWritten(forge, ofs, i + 1)
    else if |ofs[i].forgeVersion.value| == 0 then true
    else if StringUtils.CompareClassVersions(ToString(forge.version), ofs[i].forgeVersion.value) == 0 then true
    else ForgeFitsOptiFineFromAsWritten(forge, ofs, i + 1)
  }

  /** The list test as written; an unloaded OptiFine list fits no build. */
  function ForgeFitsOptiFineListAsWritten(forge: ForgeEntry, ofs: Option<seq<OptiFineEntry>>): (r: bool)
    ensures r <==> ofs.Some? && exists j :: 0 <= j < |ofs.value| && MeetsAsWritten(forge, ofs.value[j].forgeVersion)
  {
    ofs.Some? && ForgeFitsOptiFineFromAsWritten(forge, ofs.value, 0)
  }

  /** The fit test of Forge's handler as written: the pair test against a
    * chosen OptiFine build, else the as-written list test. */
  predicate ForgeFitsChoiceAsWritten(s: Selection, forge: ForgeEntry, ofs: Option<seq<OptiFineEntry>>)
  {
    if s.optifine.Some? then OptiFineFitsForge(s.optifine.value, forge) else ForgeFitsOptiFineListAsWritten(forge, ofs)
  }

  /** Forge's `onValueChange` for a build, as written: the list test
    * compares requirements through `compareClassVersions`, and when no
    * OptiFine is chosen and the build fits the OptiFine list, Forge is taken
    * off the Forge list's own marks instead of the OptiFine list's. */
  function PickForgeAsWritten(s: Selection, forge: ForgeEntry, ofs: Option<seq<OptiFineEntry>>): (r: Selection)
    ensures r.forge == Some(forge)
    ensures r.optifine == (if ForgeFitsChoiceAsWritten(s, forge, ofs) then s.optifine else None)
    ensures forall k :: Exclusive(k) ==> !IsSelected(r, k) && MarksOf(r.marks, k) == MarksOf(s.marks, k) + {Forge}
    ensures !ForgeFitsChoiceAsWritten(s, forge, ofs) ==>
      MarksOf(r.marks, OptiFine) == MarksOf(s.marks, OptiFine) + {Forge} && MarksOf(r.marks, Forge) == MarksOf(s.marks, Forge)
    ensures s.optifine.Some? && ForgeFitsChoiceAsWritten(s, forge, ofs) ==>
      MarksOf(r.marks, OptiFine) == MarksOf(s.marks, OptiFine) - {Forge} && MarksOf(r.marks, Forge) == MarksOf(s.marks, Forge)
    ensures s.optifine.None? && ForgeFitsChoiceAsWritten(s, forge, ofs) ==>
      MarksOf(r.marks, OptiFine) == MarksOf(s.marks, OptiFine) && MarksOf(r.marks, Forge) == MarksOf(s.marks, Forge) - {Forge}
  {
    if !ForgeFitsChoiceAsWritten(s, forge, ofs) then
      Selection(None, Some(forge), None, None, None,
                Mark(Mark(s.marks, {OptiFine}, Forge), {NeoForge, Fabric, Quilt}, Forge))
    else if s.optifine.Some? then
      Selection(s.optifine, Some(forge), None, None, None,
                Mark(Unmark(s.marks, {OptiFine}, Forge), {NeoForge, Fabric, Quilt}, Forge))
    else
      Selection(None, Some(forge), None, None, None,
                Mark(Unmark(s.marks, {Forge}, Forge), {NeoForge, Fabric, Quilt}, Forge))
  }

  /** With no OptiFine chosen and a loaded OptiFine list whose only entry
    * asks for "Forge #n", choosing a Forge build of revision n marks the
    * OptiFine list as written, although the build fits that entry; the
    * corrected handler leaves the list open. */
  lemma RevisionRequirementMarksAsWritten(forge: ForgeEntry, of: OptiFineEntry)
    requires Parsed(forge.version) && forge.version.major != forge.version.revision
    requires of.forgeVersion == Some(IntToString(forge.version.revision))
    ensures ForgeFitsOptiFineList(forge, Some([of])) && !ForgeFitsOptiFineListAsWritten(forge, Some([of]))
    ensures Forge in MarksOf(PickForgeAsWritten(Initial, forge, Some([of])).marks, OptiFine)
    ensures Forge !in MarksOf(PickForge(Initial, forge, Some([of])).marks, OptiFine)
  {
    UndottedRequirementAsWritten(of, forge);
    assert Meets(forge, [of][0].forgeVersion);
    assert forall j :: 0 <= j < |[of]| ==> [of][j] == of;
  }

  /** A Forge build chosen before the OptiFine list has loaded marks that
    * list; choosing another build once the list has loaded, one that fits
    * it, leaves the mark, so the OptiFine list stays closed. */
  lemma StaleForgeMarkAsWritten(f1: ForgeEntry, f2: ForgeEntry, of: OptiFineEntry)
    requires of.forgeVersion == Some("")
    ensures var s2 := PickForgeAsWritten(PickForgeAsWritten(Initial, f1, None), f2, Some([of]));
      ForgeFitsOptiFineList(f2, Some([of])) && Forge in MarksOf(s2.marks, OptiFine)
  {
    var s1 := PickForgeAsWritten(Initial, f1, None);
    assert Forge in MarksOf(s1.marks, OptiFine);
    assert Meets(f2, [of][0].forgeVersion);
    assert MeetsAsWritten(f2, [of][0].forgeVersion);
  }

  /** Choosing a Forge build: OptiFine stays only when it fits and the
    * OptiFine list is marked with Forge exactly when it does not; NeoForge,
    * Fabric and Quilt are dropped and marked. */
  function PickForge(s: Selection, forge: ForgeEntry, ofs: Option<seq<OptiFineEntry>>): (r: Selection)
    ensures r.forge == Some(forge)
    ensures r.optifine == (if ForgeFitsChoice(s, forge, ofs) then s.optifine else None)
    ensures forall k :: Exclusive(k) ==> !IsSelected(r, k) && MarksOf(r.marks, k) == MarksOf(s.marks, k) + {Forge}
    ensures Forge in MarksOf(r.marks, OptiFine) <==> !ForgeFitsChoice(s, forge, ofs)
    ensures MarksOf(r.marks, OptiFine) - {Forge} == MarksOf(s.marks, OptiFine) - {Forge}
    ensures MarksOf(r.marks, Forge) == MarksOf(s.marks, Forge)
  {
    var fits := ForgeFitsChoice(s, forge, ofs);
    var m := if fits then Unmark(s.marks, {OptiFine}, Forge) else Mark(s.marks, {OptiFine}, Forge);
    Selection(if fits then s.optifine else None, Some(forge), None, None, None,
              Mark(m, {NeoForge, Fabric, Quilt}, Forge))
  }

  // ---------------------------------------------------------------------
  // The screen as a state machine
  // ---------------------------------------------------------------------

  /** A choice in one list; None is the clear button. The list the other
    * loader's test reads is passed as it stands at that moment. */
  datatype Event =
    | ChooseOptiFine(optifine: Option<OptiFineEntry>, forgeList: Option<seq<ForgeEntry>>)
    | ChooseForge(forge: Option<ForgeEntry>, optifineList: Option<seq<OptiFineEntry>>)
    | ChooseNeoForge(neoforge: Option<Str>)
    | ChooseFabric(fabric: Option<Str>)
    | ChooseQuilt(quilt: Option<Str>)

  function ListOf(e: Event): Loader
  {
    match e
    case ChooseOptiFine(_, _) => OptiFine
    case ChooseForge(_, _) => Forge
    case ChooseNeoForge(_) => NeoForge
    case ChooseFabric(_) => Fabric
    case ChooseQuilt(_) => Quilt
  }

  /** The list's `onValueChange`. */
  function Handle(s: Selection, e: Event): Selection
  {
    match e
    case ChooseOptiFine(v, forges) => if v.None? then ClearAddon(s, OptiFine) else PickOptiFine(s, v.value, forges)
    case ChooseForge(v, ofs) => if v.None? then ClearAddon(s, Forge) else PickForge(s, v.value, ofs)
    case ChooseNeoForge(v) => if v.None? then ClearAddon(s, NeoForge) else PickExclusive(s, NeoForge, v.value)
    case ChooseFabric(v) => if v.None? then ClearAddon(s, Fabric) else PickExclusive(s, Fabric, v.value)
    case ChooseQuilt(v) => if v.None? then ClearAddon(s, Quilt) else PickExclusive(s, Quilt, v.value)
  }

  /** The lists marked in `m`: their `LaunchedEffect` clears them. */
  function MarkedLists(m: Marks): (c: set<Loader>)
    ensures forall l :: l in c <==> MarksOf(m, l) != {}
  {
    EveryLoader();
    set l | l in AllLoaders && MarksOf(m, l) != {}
  }

  /** Each list loses the marks of the cleared loaders other than itself. */
  function UnmarkCleared(m: Marks, c: set<Loader>): (r: Marks)
    ensures forall l :: MarksOf(r, l) == MarksOf(m, l) - (c - {l})
  {
    Marks(m.optifine - (c - {OptiFine}), m.forge - (c - {Forge}), m.neoforge - (c - {NeoForge}),
          m.fabric - (c - {Fabric}), m.quilt - (c - {Quilt}))
  }

  /** Every list marked after a choice is cleared through its own
    * `onValueChange(null)`: its choice is dropped and it stops marking the
    * other lists. */
  function Settle(s: Selection): (r: Selection)
    ensures forall l :: MarksOf(s.marks, l) != {} ==> !IsSelected(r, l)
    ensures forall l :: MarksOf(s.marks, l) == {} ==> Slot(r, l) == Slot(s, l)
    ensures forall k, l :: l in MarksOf(r.marks, k) <==> l in MarksOf(s.marks, k) && (l == k || MarksOf(s.marks, l) == {})
  {
    var c := MarkedLists(s.marks);
    ClearedSlots(s, c);
    UnmarkClearedIff(s.marks, c);
    ClearLists(s, c)
  }

  /** The choices of the lists in `c` dropped, the marks of the other
    * cleared lists removed. */
  function ClearLists(s: Selection, c: set<Loader>): (r: Selection)
    ensures r.marks == UnmarkCleared(s.marks, c)
  {
    Selection(if OptiFine in c then None else s.optifine,
              if Forge in c then None else s.forge,
              if NeoForge in c then None else s.neoforge,
              if Fabric in c then None else s.fabric,
              if Quilt in c then None else s.quilt,
              UnmarkCleared(s.marks, c))
  }

  lemma ClearedSlots(s: Selection, c: set<Loader>)
    ensures forall l :: Slot(ClearLists(s, c), l) == (if l in c then None else Slot(s, l))
  {
    forall l ensures Slot(ClearLists(s, c), l) == (if l in c then None else Slot(s, l)) {
      match l {
        case OptiFine => assert OptiFine == l;
        case Forge => assert Forge == l;
        case NeoForge => assert NeoForge == l;
        case Fabric => assert Fabric == l;
        case Quilt => assert Quilt == l;
      }
    }
  }

  lemma UnmarkClearedIff(m: Marks, c: set<Loader>)
    ensures forall k, l :: l in MarksOf(UnmarkCleared(m, c), k) <==> l in MarksOf(m, k) && (l == k || l !in c)
  {
    var r := UnmarkCleared(m, c);
    forall k: Loader, l: Loader ensures l in MarksOf(r, k) <==> l in MarksOf(m, k) && (l == k || l !in c) {
      SetMinusOthers(MarksOf(m, k), c, k, l);
    }
  }

  lemma SetMinusOthers<T>(a: set<T>, c: set<T>, k: T, l: T)
    ensures l in a - (c - {k}) <==> l in a && (l == k || l !in c)
  {
  }

  /** A marked list cannot be opened, so its events do not happen. */
  function Step(s: Selection, e: Event): Selection
  {
    if MarksOf(s.marks, ListOf(e)) == {} then Settle(Handle(s, e)) else s
  }

  function Run(s: Selection, es: seq<Event>): Selection
    decreases |es|
  {
    if |es| == 0 then s else Run(Step(s, es[0]), es[1..])
  }

  /** Marks come only from chosen loaders; a chosen NeoForge, Fabric or
    * Quilt marks every other list, and a chosen OptiFine or Forge marks
    * those three; a list whose version is chosen is not marked. */
  predicate Consistent(s: Selection)
  {
    (forall l, k :: k in MarksOf(s.marks, l) ==> k != l && IsSelected(s, k))
    && (forall l, k :: k != l && (Exclusive(k) || Exclusive(l)) && IsSelected(s, k) ==> k in MarksOf(s.marks, l))
    && (forall l :: IsSelected(s, l) ==> MarksOf(s.marks, l) == {})
  }

  /** In a consistent state only OptiFine and Forge are ever chosen together. */
  lemma ConsistentCoexistence(s: Selection)
    requires Consistent(s)
    ensures forall k, l :: k != l && IsSelected(s, k) && IsSelected(s, l) ==> !Exclusive(k) && !Exclusive(l)
    ensures forall a, b :: a in AllAddons(s) && Exclusive(LoaderOf(a)) && b in AllAddons(s) ==> b == a
  {
    forall k, l | k != l && IsSelected(s, k) && IsSelected(s, l) ensures !Exclusive(k) && !Exclusive(l) {
      assert Exclusive(k) || Exclusive(l) ==> k in MarksOf(s.marks, l);
    }
    var r := AllAddons(s);
    forall a, b | a in r && Exclusive(LoaderOf(a)) && b in r ensures b == a {
      assert IsSelected(s, LoaderOf(a)) && IsSelected(s, LoaderOf(b));
    }
  }

  /** What a choice must leave behind for `Settle` to restore consistency:
    * a mark from an unmarked list comes from a chosen loader, and a chosen
    * loader whose list is unmarked marks the lists it excludes. */
  predicate Settles(h: Selection)
  {
    (forall l :: l !in MarksOf(h.marks, l))
    && (forall l, k :: k in MarksOf(h.marks, l) && MarksOf(h.marks, k) == {} ==> k != l && IsSelected(h, k))
    && (forall l, k :: k != l && (Exclusive(k) || Exclusive(l)) && IsSelected(h, k) && MarksOf(h.marks, k) == {} ==>
          k in MarksOf(h.marks, l))
  }

  lemma SettleConsistent(h: Selection)
    requires Settles(h)
    ensures Consistent(Settle(h))
  {
    var r := Settle(h);
    forall l, k | k in MarksOf(r.marks, l) ensures k != l && IsSelected(r, k) {
      assert k in MarksOf(h.marks, l) && MarksOf(h.marks, k) == {};
      assert IsSelected(h, k) && Slot(r, k) == Slot(h, k);
    }
    forall l, k | k != l && (Exclusive(k) || Exclusive(l)) && IsSelected(r, k) ensures k in MarksOf(r.marks, l) {
      assert MarksOf(h.marks, k) == {};
    }
  }

  lemma ClearSettles(s: Selection, l: Loader)
    requires Consistent(s) && MarksOf(s.marks, l) == {}
    ensures Settles(ClearAddon(s, l))
  {
    var h := ClearAddon(s, l);
    forall j, k | k in MarksOf(h.marks, j) && MarksOf(h.marks, k) == {} ensures k != j && IsSelected(h, k) {
      assert k in MarksOf(s.marks, j) && k != l;
      assert IsSelected(s, k) && Slot(h, k) == Slot(s, k);
    }
    forall j, k | k != j && (Exclusive(k) || Exclusive(j)) && IsSelected(h, k) && MarksOf(h.marks, k) == {}
      ensures k in MarksOf(h.marks, j)
    {
      assert k != l && IsSelected(s, k);
      assert k in MarksOf(s.marks, j);
    }
  }

  lemma PickExclusiveSettles(s: Selection, l: Loader, version: Str)
    requires Consistent(s) && MarksOf(s.marks, l) == {} && Exclusive(l)
    ensures Settles(PickExclusive(s, l, version))
  {
  }

  lemma PickOptiFineSettles(s: Selection, of: OptiFineEntry, forges: Option<seq<ForgeEntry>>)
    requires Consistent(s) && MarksOf(s.marks, OptiFine) == {}
    ensures Settles(PickOptiFine(s, of, forges))
  {
    var h := PickOptiFine(s, of, forges);
    forall j, k | k in MarksOf(h.marks, j) && MarksOf(h.marks, k) == {} ensures k != j && IsSelected(h, k) {
      if k == Forge {
        assert OptiFineFitsChoice(s, of, forges);
        assert k in MarksOf(s.marks, j);
        assert IsSelected(s, Forge);
      }
    }
    forall j, k | k != j && (Exclusive(k) || Exclusive(j)) && IsSelected(h, k) && MarksOf(h.marks, k) == {}
      ensures k in MarksOf(h.marks, j)
    {
      if k == Forge {
        assert IsSelected(s, Forge);
        assert k in MarksOf(s.marks, j);
      }
    }
  }

  lemma PickForgeSettles(s: Selection, forge: ForgeEntry, ofs: Option<seq<OptiFineEntry>>)
    requires Consistent(s) && MarksOf(s.marks, Forge) == {}
    ensures Settles(PickForge(s, forge, ofs))
  {
    var h := PickForge(s, forge, ofs);
    forall j, k | k in MarksOf(h.marks, j) && MarksOf(h.marks, k) == {} ensures k != j && IsSelected(h, k) {
      if k == OptiFine {
        assert ForgeFitsChoice(s, forge, ofs);
        assert k in MarksOf(s.marks, j);
        assert IsSelected(s, OptiFine);
      }
    }
    forall j, k | k != j && (Exclusive(k) || Exclusive(j)) && IsSelected(h, k) && MarksOf(h.marks, k) == {}
      ensures k in MarksOf(h.marks, j)
    {
      if k == OptiFine {
        assert IsSelected(s, OptiFine);
        assert k in MarksOf(s.marks, j);
      }
    }
  }

  /** Every `onValueChange` of an open list leaves a state `Settle` makes
    * consistent. */
  lemma HandleSettles(s: Selection, e: Event)
    requires Consistent(s) && MarksOf(s.marks, ListOf(e)) == {}
    ensures Settles(Handle(s, e))
  {
    match e
    case ChooseOptiFine(v, forges) =>
      if v.None? { ClearSettles(s, OptiFine); } else { PickOptiFineSettles(s, v.value, forges); }
    case ChooseForge(v, ofs) =>
      if v.None? { ClearSettles(s, Forge); } else { PickForgeSettles(s, v.value, ofs); }
    case ChooseNeoForge(v) =>
      if v.None? { ClearSettles(s, NeoForge); } else { PickExclusiveSettles(s, NeoForge, v.value); }
    case ChooseFabric(v) =>
      if v.None? { ClearSettles(s, Fabric); } else { PickExclusiveSettles(s, Fabric, v.value); }
    case ChooseQuilt(v) =>
      if v.None? { ClearSettles(s, Quilt); } else { PickExclusiveSettles(s, Quilt, v.value); }
  }

  lemma StepConsistent(s: Selection, e: Event)
    requires Consistent(s)
    ensures Consistent(Step(s, e))
  {
    if MarksOf(s.marks, ListOf(e)) == {} {
      HandleSettles(s, e);
      SettleConsistent(Handle(s, e));
    }
  }

  /** Every reachable state of the screen is consistent. */
  lemma {:induction false} RunConsistent(s: Selection, es: seq<Event>)
    requires Consistent(s)
    ensures Consistent(Run(s, es))
    decreases |es|
  {
    if |es| > 0 {
      StepConsistent(s, es[0]);
      RunConsistent(Step(s, es[0]), es[1..]);
    }
  }
}
