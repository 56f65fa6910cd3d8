/** The file-tree entries (backend/Database/Models/DavItem.cs) and their
    protection rule (backend/Extensions/DavItemExtensions.cs).

    Item ids (GUIDs) are natural numbers; the four well-known folders keep
    the numbers their fixed GUIDs end in. */
module DavItems {
  import opened Wrappers

  datatype ItemType = Directory | SymlinkRoot | NzbFile | RarFile

  datatype DavItem = DavItem(id: nat, parentId: Option<nat>, name: string, fileSize: Option<int>, itemType: ItemType)

  const RootId: nat := 0
  const NzbFolderId: nat := 1
  const ContentFolderId: nat := 2
  const SymlinkFolderId: nat := 3

  const Root: DavItem := DavItem(RootId, None, "/", None, Directory)
  const NzbFolder: DavItem := DavItem(NzbFolderId, Some(RootId), "nzbs", None, Directory)
  const ContentFolder: DavItem := DavItem(ContentFolderId, Some(RootId), "content", None, Directory)
  const SymlinkFolder: DavItem := DavItem(SymlinkFolderId, Some(RootId), "completed-symlinks", None, SymlinkRoot)

  /** The ids of the folders nobody may delete. */
  const ProtectedIds: set<nat> := {Root.id, SymlinkFolder.id, ContentFolder.id, NzbFolder.id}

  /** `IsProtected`: the item is one of the four well-known folders. */
  predicate IsProtected(item: DavItem) {
    item.id in ProtectedIds
  }

  /** Exactly the four well-known folders are protected, by id alone: any
      item with one of their ids is protected, any other item is not. */
  lemma ProtectedExactly(item: DavItem)
    ensures IsProtected(item) <==> item.id in {RootId, NzbFolderId, ContentFolderId, SymlinkFolderId}
    ensures IsProtected(Root) && IsProtected(NzbFolder) && IsProtected(ContentFolder) && IsProtected(SymlinkFolder)
    ensures |ProtectedIds| == 4
  {
  }

  /** Protection does not depend on anything but the id. */
  lemma ProtectionByIdOnly(a: DavItem, b: DavItem)
    requires a.id == b.id
    ensures IsProtected(a) == IsProtected(b)
  {
  }
}
