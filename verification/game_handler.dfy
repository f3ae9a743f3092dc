/** The offline-skin resource pack the game handler builds before launch:
  * which pack format and file layout the Minecraft version needs, which
  * files the skin is copied to, and how the pack is entered into the
  * `resourcePacks` list of `options.txt`. */
module GameHandler {
  import opened Wrappers
  import opened KotlinText
  import opened StringUtils
  import opened MCOptions
  import opened VersionInfo

  // ---------------------------------------------------------------------
  // Pack format and layout
  // ---------------------------------------------------------------------

  /** Versions whose main code is 0 to 5 get no skin pack. */
  predicate TooOld(main: int)
  {
    0 <= main <= 5
  }

  /** The `pack_format` of the pack, by main version (and sub version for
    * 18 to 20); anything outside the table is 17. */
  function PackFormat(main: int, sub: int): (r: int)
    ensures 1 <= r <= 17
    ensures main >= 21 || main < 6 ==> r == 17
  {
    if 6 <= main <= 8 then 1
    else if 9 <= main <= 10 then 2
    else if 11 <= main <= 12 then 3
    else if 13 <= main <= 14 then 4
    else if main == 15 then 5
    else if main == 16 then 6
    else if main == 17 then 7
    else if main == 18 then (if sub <= 2 then 8 else 9)
    else if main == 19 then (if sub <= 3 then 9 else 12)
    else if main == 20 then (if sub <= 1 then 15 else 17)
    else 17
  }

  /** (main1, sub1) is no later than (main2, sub2). */
  predicate NotLater(main1: int, sub1: int, main2: int, sub2: int)
  {
    main1 < main2 || (main1 == main2 && sub1 <= sub2)
  }

  /** From 1.6 on, a later version never gets a smaller pack format. */
  lemma PackFormatMonotone(main1: int, sub1: int, main2: int, sub2: int)
    requires 6 <= main1 && NotLater(main1, sub1, main2, sub2)
    ensures PackFormat(main1, sub1) <= PackFormat(main2, sub2)
  {
  }

  /** The skin lives at `textures/entity/<model>.png` before 1.19.3 and in
    * the per-model player directory from then on. */
  predicate OldLayout(main: int, sub: int)
  {
    if main < 19 then true
    else if main == 19 then sub <= 2
    else false
  }

  /** The old layout is exactly the versions before 1.19.3. */
  lemma OldLayoutBefore1193(main: int, sub: int)
    ensures OldLayout(main, sub) <==> !NotLater(19, 3, main, sub)
  {
  }

  /** The entry name of the pack in the list: versions from 1.13 on, and
    * those whose main code is below 6, want a "file/" prefix. */
  function PackEntryName(main: int, fileName: Str): (r: Str)
    ensures EndsWith(r, fileName)
    ensures (main >= 13 || main < 6) <==> |r| == |fileName| + 5
  {
    var r := if main >= 13 || main < 6 then "file/" + fileName else fileName;
    assert r[|r| - |fileName|..] == fileName;
    r
  }

  // ---------------------------------------------------------------------
  // Skin files
  // ---------------------------------------------------------------------

  datatype SkinModel = Alex | Steve

  /** `SkinModelType.entries.find { it.name == ... }`. */
  function ModelNamed(name: Str): (r: Option<SkinModel>)
    ensures r == Some(Alex) <==> name == "ALEX"
    ensures r == Some(Steve) <==> name == "STEVE"
  {
    if name == "ALEX" then Some(Alex)
    else if name == "STEVE" then Some(Steve)
    else None
  }

  const EntityDir: Str := "assets/minecraft/textures/entity/"

  /** The skin names the new layout provides a file for. */
  const PlayerSkins: seq<Str> := ["alex", "ari", "efe", "kai", "makena", "noor", "steve", "sunny", "zuri"]

  lemma PlayerSkinsDistinct()
    ensures forall i, j :: 0 <= i < j < |PlayerSkins| ==> PlayerSkins[i] != PlayerSkins[j]
  {
  }

  /** The files in the pack the skin is copied to; `modelDir` is the
    * model's directory name in the new layout. */
  function SkinTargets(oldLayout: bool, model: SkinModel, modelDir: Str): (r: seq<Str>)
    ensures oldLayout ==> |r| == 1
    ensures !oldLayout ==> |r| == |PlayerSkins|
    ensures forall i :: 0 <= i < |r| ==> StartsWith(r[i], EntityDir) && EndsWith(r[i], ".png")
  {
    if oldLayout then
      var f := EntityDir + (if model == Alex then "alex" else "steve") + ".png";
      assert f[..|EntityDir|] == EntityDir;
      assert f[|f| - 4..] == ".png";
      [f]
    else
      var dir := EntityDir + "player/" + modelDir + "/";
      seq(|PlayerSkins|, i requires 0 <= i < |PlayerSkins| =>
        var f := dir + PlayerSkins[i] + ".png";
        assert f[..|EntityDir|] == EntityDir;
        assert f[|f| - 4..] == ".png";
        f)
  }

  /** The same prefix and suffix around different middles give different
    * texts. */
  lemma Framed(p: Str, a: Str, b: Str, s: Str)
    requires p + a + s == p + b + s
    ensures a == b
  {
    var x := p + a + s;
    assert |a| == |b|;
    assert x[|p|..|p| + |a|] == a;
    assert (p + b + s)[|p|..|p| + |b|] == b;
  }

  /** The new layout writes nine different files. */
  lemma NewLayoutDistinct(model: SkinModel, modelDir: Str)
    ensures var r := SkinTargets(false, model, modelDir);
      forall i, j :: 0 <= i < j < |r| ==> r[i] != r[j]
  {
    var r := SkinTargets(false, model, modelDir);
    var dir := EntityDir + "player/" + modelDir + "/";
    PlayerSkinsDistinct();
    forall i, j | 0 <= i < j < |r| ensures r[i] != r[j] {
      if r[i] == r[j] {
        Framed(dir, PlayerSkins[i], PlayerSkins[j], ".png");
      }
    }
  }

  // ---------------------------------------------------------------------
  // The pack
  // ---------------------------------------------------------------------

  const PackFileName: Str := "ZLSkin-pack.zip"

  /** The account fields the pack depends on. */
  datatype SkinAccount = SkinAccount(isLocal: bool, skinFileExists: bool, skinModelType: Str)

  /** What `tryPackSkinResourcePack` is asked to build. */
  datatype SkinPackPlan = SkinPackPlan(packFormat: int, oldLayout: bool, targets: seq<Str>)

  /** The pack the current account and version call for, if any: a local
    * account with a skin file and a known model type, on a version whose
    * main code is not 0 to 5. */
  function PlanSkinPack(account: Option<SkinAccount>, code: McVersionCode, modelDir: SkinModel -> Str): (r: Option<SkinPackPlan>)
    ensures r.Some? <==> (account.Some? && account.value.isLocal && account.value.skinFileExists
      && ModelNamed(account.value.skinModelType).Some? && !TooOld(code.main))
    ensures r.Some? ==> (r.value.packFormat == PackFormat(code.main, code.sub)
      && r.value.oldLayout == OldLayout(code.main, code.sub)
      && |r.value.targets| == (if r.value.oldLayout then 1 else |PlayerSkins|))
  {
    if account.None? then None
    else
      var a := account.value;
      if !a.isLocal || !a.skinFileExists || |a.skinModelType| == 0 then None
      else match ModelNamed(a.skinModelType)
        case None => None
        case Some(model) =>
          if TooOld(code.main) then None
          else
            var layout := OldLayout(code.main, code.sub);
            Some(SkinPackPlan(PackFormat(code.main, code.sub), layout, SkinTargets(layout, model, modelDir(model))))
  }

  // ---------------------------------------------------------------------
  // The resourcePacks list
  // ---------------------------------------------------------------------

  const Vanilla: Str := "vanilla"

  const ResourcePacksKey: Str := "resourcePacks"

  /** The index of the first occurrence of `x`. */
  function FirstIndex(xs: seq<Str>, x: Str): (i: nat)
    requires x in xs
    ensures i < |xs| && xs[i] == x
    ensures forall j :: 0 <= j < i ==> xs[j] != x
  {
    if xs[0] == x then 0 else 1 + FirstIndex(xs[1..], x)
  }

  /** The list with "vanilla" on top when it has none. */
  function WithVanilla(packs: seq<Str>): (r: seq<Str>)
    ensures Vanilla in r
  {
    if Vanilla in packs then packs else [Vanilla] + packs
  }

  /** A list that does not hold the pack gets it right after its first
    * "vanilla"; a list without "vanilla" gets that first, at the top. */
  function InsertPack(packs: seq<Str>, name: Str): (r: seq<Str>)
    ensures name in r
    ensures name in packs ==> r == packs
    ensures forall x :: x in r <==> x in packs || x == name || (x == Vanilla && name !in packs)
  {
    if name in packs then packs
    else
      var base := WithVanilla(packs);
      var i := FirstIndex(base, Vanilla);
      base[..i + 1] + [name] + base[i + 1..]
  }

  /** Inserting the pack puts it directly after the first "vanilla", and
    * taking it out again gives the list with "vanilla" ensured. */
  lemma InsertPackPlacement(packs: seq<Str>, name: Str)
    requires name !in packs
    ensures var r := InsertPack(packs, name);
      var i := FirstIndex(r, Vanilla);
      i + 1 < |r| && r[i + 1] == name && r[..i + 1] + r[i + 2..] == WithVanilla(packs)
      && |r| == |packs| + (if Vanilla in packs then 1 else 2)
  {
    var base := WithVanilla(packs);
    var i := FirstIndex(base, Vanilla);
    var r := base[..i + 1] + [name] + base[i + 1..];
    assert InsertPack(packs, name) == r;
    InsertAfter(base, i, name);
    FirstIndexUnique(r, Vanilla, i);
  }

  /** Putting `y` right after index `i` shifts the rest by one, and taking
    * it out again gives the list back. */
  lemma InsertAfter<T>(xs: seq<T>, i: nat, y: T)
    requires i < |xs|
    ensures var r := xs[..i + 1] + [y] + xs[i + 1..];
      |r| == |xs| + 1 && r[i + 1] == y && r[..i + 1] + r[i + 2..] == xs
      && forall j :: 0 <= j <= i ==> r[j] == xs[j]
  {
    var r := xs[..i + 1] + [y] + xs[i + 1..];
    assert r[..i + 1] == xs[..i + 1];
    assert r[i + 2..] == xs[i + 1..];
  }

  /** An index holding `x` with no `x` before it is the first index. */
  lemma FirstIndexUnique(xs: seq<Str>, x: Str, i: nat)
    requires i < |xs| && xs[i] == x && forall j :: 0 <= j < i ==> xs[j] != x
    ensures FirstIndex(xs, x) == i
  {
    var k := FirstIndex(xs, x);
    assert !(k < i) by { assert xs[k] == x; }
    assert !(i < k);
  }

  /** Inserting twice is inserting once. */
  lemma InsertPackIdempotent(packs: seq<Str>, name: Str)
    ensures InsertPack(InsertPack(packs, name), name) == InsertPack(packs, name)
  {
  }

  /** The text stored for `key`, when there is one. */
  function Stored(options: Options, key: Str): (r: Option<Str>)
    ensures r.Some? <==> key in options
  {
    if key in options then Some(options[key]) else None
  }

  /** `set("resourcePacks", getAsList(...) with the pack inserted)`. */
  function UpdateResourcePacks(options: Options, main: int, fileName: Str): (r: Options)
    ensures r.Keys == options.Keys + {ResourcePacksKey}
    ensures forall k :: k in options && k != ResourcePacksKey ==> r[k] == options[k]
    ensures r[ResourcePacksKey] == EncodeList(InsertPack(GetAsList(Stored(options, ResourcePacksKey)), PackEntryName(main, fileName)))
  {
    var packs := GetAsList(Stored(options, ResourcePacksKey));
    options[ResourcePacksKey := EncodeList(InsertPack(packs, PackEntryName(main, fileName)))]
  }

  /** Items that the list codec writes and reads back unchanged. */
  predicate ListItems(xs: seq<Str>)
  {
    forall i :: 0 <= i < |xs| ==> Quotable(xs[i]) && Trimmed(xs[i])
  }

  lemma VanillaItem()
    ensures Quotable(Vanilla) && Trimmed(Vanilla)
  {
    assert Vanilla[|Vanilla| - 1] == 'a';
    assert Vanilla[0] == 'v';
  }

  /** The list read back after the update is the old list with the pack
    * inserted, as long as every item survives the list codec. */
  lemma UpdateReadsBack(options: Options, main: int, fileName: Str)
    requires ListItems(GetAsList(Stored(options, ResourcePacksKey)))
    requires Quotable(PackEntryName(main, fileName)) && Trimmed(PackEntryName(main, fileName))
    ensures GetAsList(Some(UpdateResourcePacks(options, main, fileName)[ResourcePacksKey]))
      == InsertPack(GetAsList(Stored(options, ResourcePacksKey)), PackEntryName(main, fileName))
  {
    var packs := GetAsList(Stored(options, ResourcePacksKey));
    var name := PackEntryName(main, fileName);
    InsertPackItems(packs, name);
    ListRoundTrip(InsertPack(packs, name));
  }

  /** Inserting a pack the codec keeps leaves a list the codec keeps. */
  lemma InsertPackItems(packs: seq<Str>, name: Str)
    requires ListItems(packs)
    requires Quotable(name) && Trimmed(name)
    ensures ListItems(InsertPack(packs, name))
  {
    var r := InsertPack(packs, name);
    VanillaItem();
    forall i | 0 <= i < |r| ensures Quotable(r[i]) && Trimmed(r[i]) {
      assert r[i] in r;
      if r[i] in packs {
        var j :| 0 <= j < |packs| && packs[j] == r[i];
      }
    }
  }

  /** Launching twice does not enter the pack twice. */
  lemma UpdateTwiceSameList(options: Options, main: int, fileName: Str)
    requires ListItems(GetAsList(Stored(options, ResourcePacksKey)))
    requires Quotable(PackEntryName(main, fileName)) && Trimmed(PackEntryName(main, fileName))
    ensures var once := UpdateResourcePacks(options, main, fileName);
      UpdateResourcePacks(once, main, fileName)[ResourcePacksKey] == once[ResourcePacksKey]
  {
    var once := UpdateResourcePacks(options, main, fileName);
    UpdateReadsBack(options, main, fileName);
    assert Stored(once, ResourcePacksKey) == Some(once[ResourcePacksKey]);
    InsertPackIdempotent(GetAsList(Stored(options, ResourcePacksKey)), PackEntryName(main, fileName));
  }

  /** `localSkinResourcePack`: when a pack is called for and packing it
    * succeeds (`packed`), the pack is entered into the list. */
  function LocalSkinResourcePack(options: Options, account: Option<SkinAccount>, code: McVersionCode,
                                 modelDir: SkinModel -> Str, packed: bool): (r: Options)
    ensures PlanSkinPack(account, code, modelDir).None? || !packed ==> r == options
    ensures PlanSkinPack(account, code, modelDir).Some? && packed ==> r == UpdateResourcePacks(options, code.main, PackFileName)
  {
    if PlanSkinPack(account, code, modelDir).Some? && packed then UpdateResourcePacks(options, code.main, PackFileName)
    else options
  }

  /** Versions 1.0 to 1.5 (and unparsed ones, which are 0) keep their
    * options untouched. */
  lemma OldVersionsUntouched(options: Options, account: Option<SkinAccount>, code: McVersionCode,
                             modelDir: SkinModel -> Str, packed: bool)
    requires TooOld(code.main)
    ensures LocalSkinResourcePack(options, account, code, modelDir, packed) == options
  {
  }

  /** Snapshots (code 99.99) get format 17, the new layout and a "file/"
    * entry. */
  lemma SnapshotPack(account: SkinAccount, modelDir: SkinModel -> Str)
    requires account.isLocal && account.skinFileExists && ModelNamed(account.skinModelType).Some?
    ensures var p := PlanSkinPack(Some(account), McVersionCode(99, 99), modelDir);
      p.Some? && p.value.packFormat == 17 && !p.value.oldLayout && |p.value.targets| == 9
    ensures PackEntryName(99, PackFileName) == "file/" + PackFileName
  {
  }
}
