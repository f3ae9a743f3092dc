/** Favourite folders of the current game directory: folder name to the
  * set of version names it holds. Without current game information every
  * change is ignored. */
module FavoritesVersionUtils {
  import opened Wrappers
  import opened KotlinText

  type Favorites = map<Str, set<Str>>

  /** `modifyFavorites`: apply the change when there is game information. */
  function Modify(info: Option<Favorites>, change: Favorites -> Favorites): (r: Option<Favorites>)
    ensures info.None? ==> r.None?
    ensures info.Some? ==> r == Some(change(info.value))
  {
    if info.None? then None else Some(change(info.value))
  }

  /** `renameVersion`: every folder holding the old name holds the new one
    * instead; other folders are untouched. */
  function Rename(m: Favorites, oldName: Str, newName: Str): (r: Favorites)
    ensures r.Keys == m.Keys
    ensures forall f :: f in m && oldName in m[f] ==> r[f] == m[f] - {oldName} + {newName}
    ensures forall f :: f in m && oldName !in m[f] ==> r[f] == m[f]
  {
    map f | f in m :: if oldName in m[f] then m[f] - {oldName} + {newName} else m[f]
  }

  /** Renaming to a name no folder holds, and back, restores the folders. */
  lemma RenameBack(m: Favorites, oldName: Str, newName: Str)
    requires forall f :: f in m ==> newName !in m[f]
    ensures Rename(Rename(m, oldName, newName), newName, oldName) == m
  {
    var r := Rename(Rename(m, oldName, newName), newName, oldName);
    forall f | f in m ensures r[f] == m[f] {
      if oldName in m[f] {
        assert m[f] - {oldName} + {newName} - {newName} + {oldName} == m[f];
      }
    }
  }

  /** `addFolder`: `putIfAbsent` with an empty set. */
  function AddFolder(m: Favorites, name: Str): (r: Favorites)
    ensures name in r && r.Keys == m.Keys + {name}
    ensures forall f :: f in m ==> r[f] == m[f]
    ensures name !in m ==> r[name] == {}
  {
    if name in m then m else m[name := {}]
  }

  /** `removeFolder`. */
  function RemoveFolder(m: Favorites, name: Str): (r: Favorites)
    ensures name !in r && r.Keys == m.Keys - {name}
    ensures forall f :: f in r ==> r[f] == m[f]
  {
    m - {name}
  }

  /** Adding a new folder and removing it restores the folders. */
  lemma AddThenRemove(m: Favorites, name: Str)
    requires name !in m
    ensures RemoveFolder(AddFolder(m, name), name) == m
  {
  }

  /** `updateVersionFolders`: the version joins every target folder (created
    * when missing) and leaves every other folder. */
  function UpdateVersionFolders(m: Favorites, version: Str, targets: set<Str>): (r: Favorites)
    ensures r.Keys == m.Keys + targets
  {
    map f | f in m.Keys + targets ::
      if f in targets then (if f in m then m[f] else {}) + {version}
      else m[f] - {version}
  }

  /** Afterwards the version is in exactly the target folders, and every
    * other version keeps its folders. */
  lemma UpdateExact(m: Favorites, version: Str, targets: set<Str>)
    ensures var r := UpdateVersionFolders(m, version, targets);
      (forall f :: f in r ==> (version in r[f] <==> f in targets))
      && (forall f, v :: f in r && v != version ==> (v in r[f] <==> f in m && v in m[f]))
  {
  }

  /** `getValidVersions`: the folder's versions that exist (the existence
    * test is a parameter); nothing for a missing folder or game. */
  function ValidVersions(info: Option<Favorites>, folder: Str, versionExists: Str -> bool): (r: set<Str>)
    ensures forall v :: v in r <==> info.Some? && folder in info.value && v in info.value[folder] && versionExists(v)
  {
    if info.None? || folder !in info.value then {}
    else set v | v in info.value[folder] && versionExists(v)
  }
}
