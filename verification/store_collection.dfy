/** `BaseStoreCollection` (backend/WebDav/Base/BaseStoreCollection.cs) as
    specialised by `DatabaseStoreCollection`
    (backend/WebDav/DatabaseStoreCollection.cs): a directory of the
    WebDAV tree backed by the item table, with the placeholder files of
    the multi-step upload handshake layered on top.

    The item table is a sequence searched in order (the first match
    stands for the database's `FirstOrDefault`); a collection's
    placeholder registry key is its id written in decimal. Deleting an
    item removes that row only. */
module StoreCollection {
  import opened Wrappers
  import opened DavItems
  import Text
  import EF = EmptyFileManager

  /** The WebDAV view of an item. */
  datatype StoreItem =
    | WatchFolder(dir: DavItem)
    | Collection(dir: DavItem)
    | SymlinkCollection(dir: DavItem)
    | NzbFileItem(file: DavItem)
    | RarFileItem(file: DavItem)
    | Placeholder(empty: EF.EmptyFile)

  predicate IsCollection(s: StoreItem) {
    s.WatchFolder? || s.Collection? || s.SymlinkCollection?
  }

  /** The `DavStatusCode`s these operations answer with. */
  datatype DavStatusCode = DavOk | Created | Conflict | NotFound | Forbidden

  datatype StoreItemResult = StoreItemResult(status: DavStatusCode, item: Option<StoreItem>)

  datatype State = State(items: seq<DavItem>, registry: EF.Registry)

  /** Every registered manager holds distinct names. */
  ghost predicate Valid(st: State) {
    forall k :: k in st.registry ==> EF.Valid(st.registry[k])
  }

  /** `GetItem`: the watch folder for the NZB folder, a collection for any
      other directory, and the matching view of the other item types. */
  function GetItem(d: DavItem): (r: StoreItem)
    ensures IsCollection(r) <==> d.itemType.Directory? || d.itemType.SymlinkRoot?
    ensures r.WatchFolder? <==> d.itemType.Directory? && d.id == NzbFolderId
  {
    match d.itemType
    case Directory => if d.id == NzbFolder.id then WatchFolder(d) else Collection(d)
    case SymlinkRoot => SymlinkCollection(d)
    case NzbFile => NzbFileItem(d)
    case RarFile => RarFileItem(d)
  }

  predicate IsChild(d: DavItem, dirId: nat, name: string) {
    d.parentId == Some(dirId) && d.name == name
  }

  /** `GetDirectoryChildAsync`: the first item under `dirId` named `name`. */
  function DirectoryChild(items: seq<DavItem>, dirId: nat, name: string): (r: Option<DavItem>)
    ensures r.Some? ==> r.value in items && IsChild(r.value, dirId, name)
    ensures r.None? <==> forall i :: 0 <= i < |items| ==> !IsChild(items[i], dirId, name)
  {
    if |items| == 0 then None
    else if IsChild(items[0], dirId, name) then Some(items[0])
    else
      var r := DirectoryChild(items[1..], dirId, name);
      assert forall i :: 1 <= i < |items| ==> items[i] == items[1..][i - 1];
      r
  }

  /** `GetDirectoryChildrenAsync`: the items under `dirId`, in order. */
  function DirectoryChildren(items: seq<DavItem>, dirId: nat): (r: seq<DavItem>)
    ensures forall d :: d in r <==> d in items && d.parentId == Some(dirId)
  {
    if |items| == 0 then []
    else (if items[0].parentId == Some(dirId) then [items[0]] else []) + DirectoryChildren(items[1..], dirId)
  }

  /** The registry key of a collection: its id in decimal. */
  function Key(dir: DavItem): string {
    Text.ShowNat(dir.id)
  }

  /** Distinct collections never share placeholders. */
  lemma KeysDistinct(a: DavItem, b: DavItem)
    requires a.id != b.id
    ensures Key(a) != Key(b)
  {
    Text.DecimalRoundTrip(a.id);
    Text.DecimalRoundTrip(b.id);
  }

  function Placeholders(st: State, dir: DavItem): EF.Manager {
    EF.ManagerOf(st.registry, Key(dir))
  }

  /** `GetItemAsync(name)`: the stored child, else the placeholder. */
  function GetItemAsync(st: State, dir: DavItem, name: string): (r: Option<StoreItem>)
    ensures DirectoryChild(st.items, dir.id, name).Some? ==> r == Some(GetItem(DirectoryChild(st.items, dir.id, name).value))
    ensures DirectoryChild(st.items, dir.id, name).None? ==>
              (r.Some? <==> name in Placeholders(st, dir).names)
    ensures DirectoryChild(st.items, dir.id, name).None? && r.Some? ==> r.value == Placeholder(EF.EmptyFile(name))
  {
    match DirectoryChild(st.items, dir.id, name)
    case Some(child) => Some(GetItem(child))
    case None =>
      match EF.Get(Placeholders(st, dir), name)
      case Some(e) => Some(Placeholder(e))
      case None => None
  }

  /** `GetItemsAsync`: the stored children, then the placeholders. */
  function GetItemsAsync(st: State, dir: DavItem): (r: seq<StoreItem>)
    ensures |r| == |DirectoryChildren(st.items, dir.id)| + |Placeholders(st, dir).names|
    ensures forall i :: 0 <= i < |DirectoryChildren(st.items, dir.id)| ==>
              r[i] == GetItem(DirectoryChildren(st.items, dir.id)[i])
    ensures forall i :: |DirectoryChildren(st.items, dir.id)| <= i < |r| ==>
              r[i].Placeholder? && r[i].empty.name == Placeholders(st, dir).names[i - |DirectoryChildren(st.items, dir.id)|]
  {
    var children := DirectoryChildren(st.items, dir.id);
    var names := Placeholders(st, dir).names;
    seq(|children|, i requires 0 <= i < |children| => GetItem(children[i]))
      + seq(|names|, i requires 0 <= i < |names| => Placeholder(EF.EmptyFile(names[i])))
  }

  /** Replaces the manager of `dir` (managers are shared objects). */
  function WithPlaceholders(st: State, dir: DavItem, m: EF.Manager): State {
    st.(registry := st.registry[Key(dir) := m])
  }

  /** `CreateItemAsync`: a new name with an empty body becomes a
      placeholder (step 1 of the Windows client's upload); a new name
      with a body, or an overwrite, drops the placeholder and hands over
      to the store, which refuses (NZBs go to the watch folder); an
      existing name without overwrite is a conflict. */
  function CreateItemAsync(st: State, dir: DavItem, name: string, streamEmpty: bool, overwrite: bool)
    : (r: (State, Result<StoreItemResult>))
    requires Valid(st)
    ensures Valid(r.0) && r.0.items == st.items
    ensures GetItemAsync(st, dir, name).None? && streamEmpty ==>
              r.1 == Ok(StoreItemResult(Created, Some(Placeholder(EF.EmptyFile(name)))))
              && GetItemAsync(r.0, dir, name) == Some(Placeholder(EF.EmptyFile(name)))
    ensures (GetItemAsync(st, dir, name).None? && !streamEmpty) || (GetItemAsync(st, dir, name).Some? && overwrite) ==>
              r.1 == Err(InvalidOperation) && name !in Placeholders(r.0, dir).names
    ensures GetItemAsync(st, dir, name).Some? && !overwrite ==> r == (st, Ok(StoreItemResult(Conflict, None)))
  {
    var (registry, manager) := EF.GetEmptyFileManager(st.registry, Key(dir));
    var st1 := st.(registry := registry);
    assert Valid(st1);
    var existing := GetItemAsync(st, dir, name);
    if existing.None? && streamEmpty then
      var emptyFile := EF.EmptyFile(name);
      (WithPlaceholders(st1, dir, EF.Add(manager, emptyFile)), Ok(StoreItemResult(Created, Some(Placeholder(emptyFile)))))
    else if existing.None? || overwrite then
      (WithPlaceholders(st1, dir, EF.Remove(manager, name).0), Err(InvalidOperation))
    else (st, Ok(StoreItemResult(Conflict, None)))
  }

  /** Removes the row of `d`. */
  function RemoveItem(items: seq<DavItem>, d: DavItem): (r: seq<DavItem>)
    ensures forall x :: x in r <==> x in items && x != d
  {
    if |items| == 0 then []
    else (if items[0] == d then [] else [items[0]]) + RemoveItem(items[1..], d)
  }

  /** Files, and directories that are not a well-known folder. */
  predicate Deletable(d: DavItem) {
    d.itemType.NzbFile? || d.itemType.RarFile? || (d.itemType.Directory? && !IsProtected(d))
  }

  /** `DatabaseStoreCollection.DeleteItemAsync`: nothing is deleted from
      the root; a missing child is not found; files go, and so do
      directories that are not one of the four well-known folders;
      anything else is forbidden. */
  function DeleteStoredItem(items: seq<DavItem>, dir: DavItem, name: string): (r: (seq<DavItem>, DavStatusCode))
    ensures dir.id == RootId ==> r == (items, Forbidden)
    ensures dir.id != RootId && DirectoryChild(items, dir.id, name).None? ==> r == (items, NotFound)
    ensures r.1 == DavOk <==>
              (dir.id != RootId && DirectoryChild(items, dir.id, name).Some?
               && Deletable(DirectoryChild(items, dir.id, name).value))
    ensures r.1 == DavOk ==> DirectoryChild(items, dir.id, name).value !in r.0
    ensures r.1 != DavOk ==> r.0 == items
  {
    if dir.id == Root.id then (items, Forbidden)
    else match DirectoryChild(items, dir.id, name)
      case None => (items, NotFound)
      case Some(d) =>
        if d.itemType.NzbFile? || d.itemType.RarFile? then (RemoveItem(items, d), DavOk)
        else if d.itemType.Directory? && !IsProtected(d) then (RemoveItem(items, d), DavOk)
        else (items, Forbidden)
  }

  /** `BaseStoreCollection.DeleteItemAsync`: removing a placeholder
      succeeds at once; otherwise the store decides. */
  function DeleteItemAsync(st: State, dir: DavItem, name: string): (r: (State, DavStatusCode))
    requires Valid(st)
    ensures Valid(r.0)
    ensures name in Placeholders(st, dir).names ==>
              r.1 == DavOk && r.0.items == st.items && name !in Placeholders(r.0, dir).names
    ensures name !in Placeholders(st, dir).names ==>
              (r.0.items, r.1) == DeleteStoredItem(st.items, dir, name)
              && Placeholders(r.0, dir) == Placeholders(st, dir)
  {
    var (registry, manager) := EF.GetEmptyFileManager(st.registry, Key(dir));
    var st1 := st.(registry := registry);
    var (manager', removed) := EF.Remove(manager, name);
    var st2 := WithPlaceholders(st1, dir, manager');
    if removed then (st2, DavOk)
    else
      var (items, status) := DeleteStoredItem(st.items, dir, name);
      (st2.(items := items), status)
  }

  /** The protected folders survive every delete. */
  lemma ProtectedSurvive(st: State, dir: DavItem, name: string, d: DavItem)
    requires Valid(st) && d in st.items && d.itemType.Directory? && IsProtected(d)
    ensures d in DeleteItemAsync(st, dir, name).0.items
  {
  }

  /** The Windows client's upload of a new name: step 1 (an empty body)
      answers Created with a placeholder that lookups now find; step 2
      (the body, with overwrite) drops it, and the store refuses; the
      clean-up delete of step 3 then finds nothing left to remove. */
  lemma UploadHandshake(st: State, dir: DavItem, name: string)
    requires Valid(st) && dir.id != RootId
    requires GetItemAsync(st, dir, name).None?
    ensures var (st1, r1) := CreateItemAsync(st, dir, name, true, false);
            && r1 == Ok(StoreItemResult(Created, Some(Placeholder(EF.EmptyFile(name)))))
            && GetItemAsync(st1, dir, name) == Some(Placeholder(EF.EmptyFile(name)))
            && var (st2, r2) := CreateItemAsync(st1, dir, name, false, true);
               && r2 == Err(InvalidOperation)
               && GetItemAsync(st2, dir, name).None?
               && DeleteItemAsync(st2, dir, name).1 == NotFound
               && DeleteItemAsync(st2, dir, name).0.items == st.items
  {
    var (st1, r1) := CreateItemAsync(st, dir, name, true, false);
    var (st2, r2) := CreateItemAsync(st1, dir, name, false, true);
    assert st1.items == st.items && st2.items == st.items;
    assert DirectoryChild(st2.items, dir.id, name).None?;
  }

  /** Work in one collection leaves the placeholders of every other
      collection as they were. */
  lemma PlaceholdersIsolated(st: State, dir: DavItem, other: DavItem, name: string, streamEmpty: bool, overwrite: bool)
    requires Valid(st) && dir.id != other.id
    ensures Placeholders(CreateItemAsync(st, dir, name, streamEmpty, overwrite).0, other) == Placeholders(st, other)
    ensures Placeholders(DeleteItemAsync(st, dir, name).0, other) == Placeholders(st, other)
  {
    KeysDistinct(dir, other);
  }

  /** Copy, move and collection creation are refused, whatever the
      arguments. */
  datatype Refused = Copy | Move | CreateCollection

  function Unsupported(op: Refused): (r: Result<StoreItemResult>)
    ensures r.Err? && r.error == InvalidOperation
  {
    Err(InvalidOperation)
  }

  /** `ResolvePath`: walks the segments from `current`; a missing segment,
      or a segment before the last that is not a collection, yields
      null. `lookup` stands for each collection's own `GetItemAsync`. */
  function ResolveSegments(current: StoreItem, segments: seq<string>, lookup: (StoreItem, string) -> Option<StoreItem>)
    : (r: Option<StoreItem>)
    ensures |segments| > 0 && lookup(current, segments[0]).None? ==> r.None?
    ensures |segments| == 1 ==> r == lookup(current, segments[0])
    decreases |segments|
  {
    if |segments| == 0 then Some(current)
    else match lookup(current, segments[0])
      case None => None
      case Some(next) =>
        if |segments| == 1 then Some(next)
        else if !IsCollection(next) then None
        else ResolveSegments(next, segments[1..], lookup)
  }

  /** Resolving a longer path is resolving its first part, then the rest
      from there. */
  lemma {:induction false} ResolveAppend(current: StoreItem, a: seq<string>, b: seq<string>,
                                         lookup: (StoreItem, string) -> Option<StoreItem>)
    requires |a| > 0 && |b| > 0
    decreases |a|
    ensures ResolveSegments(current, a + b, lookup) ==
              match ResolveSegments(current, a, lookup)
              case None => None
              case Some(x) => if IsCollection(x) then ResolveSegments(x, b, lookup) else None
  {
    assert (a + b)[0] == a[0];
    if |a| > 1 {
      assert (a + b)[1..] == a[1..] + b;
      match lookup(current, a[0])
      case None =>
      case Some(next) =>
        if IsCollection(next) {
          ResolveAppend(next, a[1..], b, lookup);
        }
    } else {
      assert (a + b)[1..] == b;
    }
  }

  function ResolvePath(root: StoreItem, path: string, lookup: (StoreItem, string) -> Option<StoreItem>): (r: Option<StoreItem>)
    ensures Text.Split(path, '/') == [path] ==> r == lookup(root, path)
  {
    ResolveSegments(root, Text.Split(path, '/'), lookup)
  }

  /** "a/rest" resolves as `a`, then `rest` inside it when `a` is a
      collection. */
  lemma ResolvePathStep(root: StoreItem, a: string, rest: string, lookup: (StoreItem, string) -> Option<StoreItem>)
    requires '/' !in a
    ensures ResolvePath(root, a + "/" + rest, lookup) ==
              match lookup(root, a)
              case None => None
              case Some(x) => if IsCollection(x) then ResolvePath(x, rest, lookup) else None
  {
    assert a + "/" + rest == a + ['/'] + rest;
    Text.SplitAt(a, rest, '/');
    Text.SplitNoSep(a, '/');
    ResolveAppend(root, [a], Text.Split(rest, '/'), lookup);
  }
}
