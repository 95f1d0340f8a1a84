/** The shape of one row of the `files` table, the insert and partial-update
    shapes derived from it, and the two size limits. */
module Schema {

  datatype Option<+T> = None | Some(value: T) {
    function GetOr(default: T): T {
      match this
      case Some(v) => v
      case None => default
    }
  }

  /** One row of the `files` table. `id` is the serial primary key; `fileType`
      is the `type` column (a MIME type, or whatever the client sent);
      `content` is the base64 text of the file; `parentId` is null for a row at
      the root. Nothing requires `parentId` to name a folder. */
  datatype FileRecord = FileRecord(
    id: int,
    name: string,
    path: string,
    size: int,
    fileType: string,
    content: string,
    parentId: Option<int>,
    isFolder: bool)

  /** The insert shape: every column except `id`. `isFolder` has a default and
      may therefore be omitted. */
  datatype InsertFile = InsertFile(
    name: string,
    path: string,
    size: int,
    fileType: string,
    content: string,
    parentId: Option<int>,
    isFolder: Option<bool>)

  /** The partial insert shape used by an update: `None` leaves a column as it
      is. For `parentId`, `Some(None)` sets the column to null. */
  datatype FileUpdate = FileUpdate(
    name: Option<string>,
    path: Option<string>,
    size: Option<int>,
    fileType: Option<string>,
    content: Option<string>,
    parentId: Option<Option<int>>,
    isFolder: Option<bool>)

  /** 100 MB: the largest single non-folder upload. */
  const MAX_FILE_SIZE: int := 100 * 1024 * 1024
  /** 100 GB: the ceiling on the summed size of all non-folder rows. */
  const STORAGE_LIMIT: int := 100 * 1024 * 1024 * 1024

  lemma Limits()
    ensures MAX_FILE_SIZE == 104857600
    ensures STORAGE_LIMIT == 107374182400
    ensures MAX_FILE_SIZE < STORAGE_LIMIT
  {
  }

  /** The value the `is_folder` column receives on insert: its default is false. */
  function InsertedIsFolder(ins: InsertFile): (b: bool)
    ensures b <==> ins.isFolder == Some(true)
  {
    ins.isFolder.GetOr(false)
  }

  /** The row an insert produces once the store has chosen its id. */
  function ToRecord(id: int, ins: InsertFile): (r: FileRecord)
    ensures r.id == id
    ensures r.name == ins.name && r.path == ins.path && r.size == ins.size
    ensures r.fileType == ins.fileType && r.content == ins.content
    ensures r.parentId == ins.parentId
    ensures r.isFolder <==> ins.isFolder == Some(true)
  {
    FileRecord(id, ins.name, ins.path, ins.size, ins.fileType, ins.content,
               ins.parentId, InsertedIsFolder(ins))
  }

  /** The update that sets no column. */
  const NoChange: FileUpdate := FileUpdate(None, None, None, None, None, None, None)

  /** An update merged into a row: the columns present in `u` are overwritten,
      the others and the id are kept. */
  function Merge(r: FileRecord, u: FileUpdate): (m: FileRecord)
    ensures m.id == r.id
    ensures u.name.Some? ==> m.name == u.name.value
    ensures u.name.None? ==> m.name == r.name
    ensures u.path.Some? ==> m.path == u.path.value
    ensures u.path.None? ==> m.path == r.path
    ensures u.size.Some? ==> m.size == u.size.value
    ensures u.size.None? ==> m.size == r.size
    ensures u.fileType.Some? ==> m.fileType == u.fileType.value
    ensures u.fileType.None? ==> m.fileType == r.fileType
    ensures u.content.Some? ==> m.content == u.content.value
    ensures u.content.None? ==> m.content == r.content
    ensures u.parentId.Some? ==> m.parentId == u.parentId.value
    ensures u.parentId.None? ==> m.parentId == r.parentId
    ensures u.isFolder.Some? ==> m.isFolder == u.isFolder.value
    ensures u.isFolder.None? ==> m.isFolder == r.isFolder
  {
    FileRecord(
      r.id,
      u.name.GetOr(r.name),
      u.path.GetOr(r.path),
      u.size.GetOr(r.size),
      u.fileType.GetOr(r.fileType),
      u.content.GetOr(r.content),
      u.parentId.GetOr(r.parentId),
      u.isFolder.GetOr(r.isFolder))
  }

  /** Merging the empty update changes nothing, and merging the same update
      twice is the same as merging it once. */
  lemma MergeLaws(r: FileRecord, u: FileUpdate)
    ensures Merge(r, NoChange) == r
    ensures Merge(Merge(r, u), u) == Merge(r, u)
  {
  }

  /** A rename touches the name only: id, folder flag, size, content and parent
      stay as they were. */
  lemma RenameKeepsTheRest(r: FileRecord, newName: string)
    ensures var m := Merge(r, NoChange.(name := Some(newName)));
      m.name == newName && m.id == r.id && m.isFolder == r.isFolder &&
      m.size == r.size && m.content == r.content && m.parentId == r.parentId &&
      m.path == r.path && m.fileType == r.fileType
  {
  }
}
