/** The registry of game directories: a built-in default entry first, the
  * user's entries after it, and the id of the selected one. */
module GamePathManager {
  import opened Wrappers
  import opened KotlinText

  const DefaultId: Str := "default"

  /** An entry as the manager builds it (id, title, path); its class file
    * is not part of this model. */
  datatype GamePathItem = GamePathItem(id: Str, title: Str, path: Str)

  /** The listed entries, the stored `currentGamePathId` setting, and the
    * selected path. */
  datatype Registry = Registry(items: seq<GamePathItem>, currentId: Str, currentPath: Str)

  datatype PathError =
    | NotFound          // IllegalArgumentException: no entry with that id
    | PathConflict      // IllegalArgumentException: the path is already listed
    | NoPermission      // IllegalStateException: storage permission missing

  /** `indexOfFirst { it.id == id }`. */
  function IndexOfId(items: seq<GamePathItem>, id: Str): (r: int)
    ensures -1 <= r < |items|
    ensures r == -1 <==> forall i :: 0 <= i < |items| ==> items[i].id != id
    ensures r >= 0 ==> items[r].id == id && forall i :: 0 <= i < r ==> items[i].id != id
    decreases |items|
  {
    if |items| == 0 then -1
    else if items[0].id == id then 0
    else
      var k := IndexOfId(items[1..], id);
      if k < 0 then -1 else k + 1
  }

  predicate ContainsId(items: seq<GamePathItem>, id: Str)
  {
    IndexOfId(items, id) >= 0
  }

  predicate ContainsPath(items: seq<GamePathItem>, path: Str)
  {
    exists i :: 0 <= i < |items| && items[i].path == path
  }

  /** `refreshCurrentPath`: the path of the entry with the stored id; when
    * there is none, `saveCurrentPath(DEFAULT_ID)` resets the stored id to
    * the default entry's, which fails without permission or without that
    * entry, and does nothing when the stored id already is the default. */
  function Refresh(r: Registry, permitted: bool): (out: Result<Registry, PathError>)
    ensures out.Ok? ==> out.value.items == r.items
    ensures ContainsId(r.items, r.currentId) ==>
      (out.Ok? && out.value.currentId == r.currentId
       && out.value.currentPath == r.items[IndexOfId(r.items, r.currentId)].path)
    ensures !ContainsId(r.items, r.currentId) && permitted && ContainsId(r.items, DefaultId) ==>
      out.Ok? && out.value.currentId == DefaultId
    ensures out.Err? <==> !ContainsId(r.items, r.currentId) && (!permitted || !ContainsId(r.items, DefaultId))
    ensures out.Err? ==> out.error == (if permitted then NotFound else NoPermission)
  {
    var i := IndexOfId(r.items, r.currentId);
    if i >= 0 then Ok(r.(currentPath := r.items[i].path))
    else if !permitted then Err(NoPermission)
    else
      var d := IndexOfId(r.items, DefaultId);
      if d < 0 then Err(NotFound)
      else if r.currentId == DefaultId then Ok(r)
      else Ok(r.(currentId := DefaultId, currentPath := r.items[d].path))
  }

  /** `reloadPath`: the default entry, then the entries read from the
    * configuration file; without permission the path is the default one. */
  function Reload(r: Registry, defaultPath: Str, parsed: seq<GamePathItem>, permitted: bool): (out: Result<Registry, PathError>)
    ensures out.Ok? ==> |out.value.items| >= 1 && out.value.items[0] == GamePathItem(DefaultId, "", defaultPath)
    ensures out.Ok? ==> out.value.items[1..] == parsed
    ensures !permitted ==> out.Ok? && out.value.currentPath == defaultPath
  {
    var items := [GamePathItem(DefaultId, "", defaultPath)] + parsed;
    assert items[1..] == parsed;
    if !permitted then Ok(r.(items := items, currentPath := defaultPath))
    else Refresh(r.(items := items), true)
  }

  /** `modifyTitle`: the default entry at index 0 cannot be renamed. */
  function ModifyTitle(r: Registry, id: Str, title: Str): (out: Result<Registry, PathError>)
    ensures out.Err? <==> IndexOfId(r.items, id) <= 0
    ensures out.Ok? ==>
      (|out.value.items| == |r.items|
       && (forall i :: 0 <= i < |r.items| && r.items[i].id != id ==> out.value.items[i] == r.items[i])
       && (forall i :: 0 <= i < |r.items| ==> out.value.items[i].id == r.items[i].id && out.value.items[i].path == r.items[i].path)
       && out.value.items[IndexOfId(r.items, id)].title == title)
  {
    var i := IndexOfId(r.items, id);
    if i <= 0 then Err(NotFound)
    else Ok(r.(items := r.items[i := GamePathItem(id, title, r.items[i].path)]))
  }

  /** `generateUUID`: the first of the random candidates not already an id;
    * None when every candidate is taken (the source keeps drawing). */
  function GenerateId(items: seq<GamePathItem>, candidates: seq<Str>): (r: Option<Str>)
    ensures r.Some? ==> !ContainsId(items, r.value) && r.value in candidates
    ensures r.None? <==> forall i :: 0 <= i < |candidates| ==> ContainsId(items, candidates[i])
    decreases |candidates|
  {
    if |candidates| == 0 then None
    else if !ContainsId(items, candidates[0]) then Some(candidates[0])
    else GenerateId(items, candidates[1..])
  }

  /** `addNewPath` with the id `generateUUID` drew. */
  function AddNewPath(r: Registry, title: Str, path: Str, newId: Str): (out: Result<Registry, PathError>)
    ensures out.Err? <==> ContainsPath(r.items, path)
    ensures out.Ok? ==> out.value.items == r.items + [GamePathItem(newId, title, path)]
    ensures out.Ok? ==> out.value.currentId == r.currentId && out.value.currentPath == r.currentPath
  {
    if ContainsPath(r.items, path) then Err(PathConflict)
    else Ok(r.(items := r.items + [GamePathItem(newId, title, path)]))
  }

  /** The list without the entry at index `i`. */
  function RemoveAt<T>(xs: seq<T>, i: nat): (r: seq<T>)
    requires i < |xs|
    ensures |r| == |xs| - 1
    ensures forall j :: 0 <= j < i ==> r[j] == xs[j]
    ensures forall j :: i <= j < |r| ==> r[j] == xs[j + 1]
  {
    xs[..i] + xs[i + 1..]
  }

  /** `removePath`'s list update: nothing for an unknown id, else the first
    * entry with that id taken out (`currentList - item` removes the first
    * entry equal to the one found, and the one found is the first with the
    * id). */
  function RemoveItems(items: seq<GamePathItem>, id: Str): (r: seq<GamePathItem>)
  {
    var i := IndexOfId(items, id);
    if i < 0 then items else RemoveAt(items, i)
  }

  /** `removePath`: the list update, then the selected path refreshed. The
    * update has already happened when the refresh throws; the throw only
    * skips `saveConfig`, so the error comes back with the shortened list. */
  function RemovePath(r: Registry, id: Str, permitted: bool): (out: (Registry, Option<PathError>))
    ensures !ContainsId(r.items, id) ==> out == (r, None)
    ensures out.0.items == RemoveItems(r.items, id)
    ensures out.1.Some? <==>
      ContainsId(r.items, id) && !ContainsId(out.0.items, r.currentId)
      && (!permitted || !ContainsId(out.0.items, DefaultId))
    ensures out.1.Some? ==>
      out.0 == r.(items := RemoveItems(r.items, id)) && out.1 == Some(if permitted then NotFound else NoPermission)
    ensures out.1.None? && ContainsId(out.0.items, r.currentId) ==> out.0.currentId == r.currentId
  {
    if !ContainsId(r.items, id) then (r, None)
    else
      var removed := r.(items := RemoveItems(r.items, id));
      match Refresh(removed, permitted)
      case Ok(v) => (v, None)
      case Err(e) => (removed, Some(e))
  }

  /** Removing the selected entry without storage permission fails in the
    * refresh, yet the entry is gone from the list. */
  lemma RemoveSelectedUnpermitted(d: GamePathItem, x: GamePathItem)
    requires d.id == DefaultId && x.id != DefaultId
    ensures var out := RemovePath(Registry([d, x], x.id, x.path), x.id, false);
      out.0.items == [d] && out.1 == Some(NoPermission)
  {
    assert IndexOfId([d, x], x.id) == 1;
    assert RemoveItems([d, x], x.id) == [d];
    assert IndexOfId([d], x.id) == -1;
  }

  /** Removing an id takes out exactly one entry, the first with that id,
    * and keeps the others in order. */
  lemma RemoveOnlyThatEntry(items: seq<GamePathItem>, id: Str)
    requires ContainsId(items, id)
    ensures var i := IndexOfId(items, id);
      RemoveItems(items, id) == items[..i] + items[i + 1..] && items[i].id == id
  {
  }

  /** Adding a path under a fresh id and removing that id restores the list. */
  lemma AddThenRemove(items: seq<GamePathItem>, title: Str, path: Str, newId: Str)
    requires !ContainsId(items, newId)
    ensures RemoveItems(items + [GamePathItem(newId, title, path)], newId) == items
  {
    var xs := items + [GamePathItem(newId, title, path)];
    assert forall i :: 0 <= i < |items| ==> xs[i] == items[i] && xs[i].id != newId;
    assert xs[|items|].id == newId;
    assert IndexOfId(xs, newId) == |items|;
    assert xs[..|items|] == items;
  }

  /** `saveCurrentPath(id)`: needs permission and a listed id; the same id
    * again changes nothing. */
  function SaveCurrentPath(r: Registry, id: Str, permitted: bool): (out: Result<Registry, PathError>)
    ensures !permitted ==> out == Err(NoPermission)
    ensures permitted && !ContainsId(r.items, id) ==> out == Err(NotFound)
    ensures permitted && r.currentId == id ==> out.Err? || out == Ok(r)
    ensures permitted && ContainsId(r.items, id) ==>
      (out.Ok? && out.value.currentId == id
       && out.value.currentPath == (if r.currentId == id then r.currentPath else r.items[IndexOfId(r.items, id)].path))
  {
    if !permitted then Err(NoPermission)
    else if !ContainsId(r.items, id) then Err(NotFound)
    else if r.currentId == id then Ok(r)
    else Refresh(r.(currentId := id), permitted)
  }

  /** `saveConfig`: every entry but the default one. */
  function SavedConfig(items: seq<GamePathItem>): (r: seq<GamePathItem>)
    ensures forall x :: x in r <==> x in items && x.id != DefaultId
    decreases |items|
  {
    if |items| == 0 then []
    else (if items[0].id != DefaultId then [items[0]] else []) + SavedConfig(items[1..])
  }

  /** A list headed by the default entry, with no other default id, reloads
    * from its saved configuration to itself. */
  lemma SaveReloadRoundTrip(r: Registry, defaultPath: Str, permitted: bool)
    requires |r.items| >= 1 && r.items[0] == GamePathItem(DefaultId, "", defaultPath)
    requires forall i :: 1 <= i < |r.items| ==> r.items[i].id != DefaultId
    ensures Reload(r, defaultPath, SavedConfig(r.items), permitted).Ok?
    ensures Reload(r, defaultPath, SavedConfig(r.items), permitted).value.items == r.items
  {
    var tail := r.items[1..];
    NoDefaultSaved(tail);
    SavedSkipsDefault(r.items);
    ReloadSucceeds(r, defaultPath, tail, permitted);
    assert r.items == [r.items[0]] + tail;
  }

  /** Reloading always succeeds: the default entry it puts first is there
    * for the fallback to select. */
  lemma ReloadSucceeds(r: Registry, defaultPath: Str, parsed: seq<GamePathItem>, permitted: bool)
    ensures Reload(r, defaultPath, parsed, permitted).Ok?
    ensures Reload(r, defaultPath, parsed, permitted).value.items == [GamePathItem(DefaultId, "", defaultPath)] + parsed
  {
    var items := [GamePathItem(DefaultId, "", defaultPath)] + parsed;
    assert IndexOfId(items, DefaultId) == 0;
  }

  lemma SavedSkipsDefault(items: seq<GamePathItem>)
    requires |items| >= 1 && items[0].id == DefaultId
    ensures SavedConfig(items) == SavedConfig(items[1..])
  {
    assert [] + SavedConfig(items[1..]) == SavedConfig(items[1..]);
  }

  lemma {:induction false} NoDefaultSaved(items: seq<GamePathItem>)
    requires forall i :: 0 <= i < |items| ==> items[i].id != DefaultId
    ensures SavedConfig(items) == items
    decreases |items|
  {
    if |items| > 0 {
      NoDefaultSaved(items[1..]);
      assert items == [items[0]] + items[1..];
    }
  }
}
