/** The HTTP layer over the file store: how the handlers read their
    parameters, the two admission rules an upload must pass, the storage
    summary, and the reply each handler gives. A key that reads as NaN is not
    an integer, and the database refuses a query that compares an integer
    column with it: the one handler that catches errors answers 500, the
    others reject and send no reply. */
module Routes {
  import opened Schema
  import opened Table
  import opened JsNumber
  import JsString
  import opened Storage

  /** What a handler answers. Status 200 unless it is a `Failure`. */
  datatype Reply =
    | Rows(rows: Table)                             // a JSON array of rows
    | Row(row: FileRecord)                          // one row
    | MaybeRow(found: Option<FileRecord>)           // one row, or no body for `undefined`
    | Success                                       // `{ success: true }`
    | Usage(used: int, total: int, available: int)  // the storage summary
    | Failure(status: int, message: string)
    | Rejected                                      // the handler's promise rejects; no reply

  /** The `parentId` filter of a listing: an absent or empty parameter is
      null (the root); any other string goes through `Number`. The string
      "0" is not empty, so it names parent 0. */
  function ParentFilter(param: Option<string>): (p: Option<Num>)
    ensures p.None? <==> param.None? || param.value == ""
    ensures p.Some? ==> p.value == Number(param.value)
  {
    if param.None? || param.value == "" then None else Some(Number(param.value))
  }

  /** A printed integer as the `parentId` parameter filters by that integer. */
  lemma ParentFilterRoundTrip(n: int)
    ensures ParentFilter(Some(ShowInt(n))) == Some(Int(n))
  {
    NumberShowInt(n);
  }

  /** GET /api/files: the rows under the parent the parameter names; a NaN
      parent makes the query fail, which the handler does not catch. */
  method ListFiles(store: FileStore, param: Option<string>) returns (reply: Reply)
    ensures reply.Rows? || reply.Rejected?
    ensures reply.Rejected? <==> ParentFilter(param) == Some(NaN)
    ensures ParentFilter(param).None? ==> reply.rows == ChildrenOf(store.files, None)
    ensures forall n :: ParentFilter(param) == Some(Int(n)) ==>
      reply.rows == ChildrenOf(store.files, Some(n))
    ensures reply.Rows? ==> forall r :: r in reply.rows ==> r in store.files
  {
    var p := ParentFilter(param);
    if p.None? {
      var kids := store.GetFiles(None);
      reply := Rows(kids);
    } else if p.value.Int? {
      var kids := store.GetFiles(Some(p.value.value));
      reply := Rows(kids);
    } else {
      reply := Rejected;
    }
  }

  /** GET /api/files/:id: the row with that id, 404 when there is none, and
      500 when the id is NaN and the query fails. */
  method GetFileById(store: FileStore, param: string) returns (reply: Reply)
    requires store.Valid()
    ensures reply.Row? || reply == Failure(404, "File not found") ||
            reply == Failure(500, "Failed to get file")
    ensures reply == Failure(500, "Failed to get file") <==> Number(param) == NaN
    ensures reply == Failure(404, "File not found") <==>
      Number(param).Int? && forall r :: r in store.files ==> r.id != Number(param).value
    ensures reply.Row? ==> reply.row in store.files && Number(param) == Int(reply.row.id)
  {
    var n := Number(param);
    if n.NaN? {
      return Failure(500, "Failed to get file");
    }
    var file := store.GetFile(n.value);
    if file.None? {
      return Failure(404, "File not found");
    }
    reply := Row(file.value);
  }

  /** The outcome of the two checks an upload must pass. */
  datatype Verdict = Admit | TooLarge | OverQuota {
    function Message(): string {
      match this
      case Admit => ""
      case TooLarge => "File too large"
      case OverQuota => "Storage limit exceeded"
    }
  }

  /** The admission rules of POST /api/files, given the store's current total:
      a non-folder larger than the per-file cap is refused first; then any
      upload, folders included, whose size would take the total past the
      storage limit is refused. */
  function Admission(ins: InsertFile, used: int): (v: Verdict)
    ensures v == TooLarge <==> !InsertedIsFolder(ins) && ins.size > MAX_FILE_SIZE
    ensures v == OverQuota <==>
      (InsertedIsFolder(ins) || ins.size <= MAX_FILE_SIZE) && used + ins.size > STORAGE_LIMIT
    ensures v == Admit <==>
      (InsertedIsFolder(ins) || ins.size <= MAX_FILE_SIZE) && used + ins.size <= STORAGE_LIMIT
  {
    if !InsertedIsFolder(ins) && ins.size > MAX_FILE_SIZE then TooLarge
    else if used + ins.size > STORAGE_LIMIT then OverQuota
    else Admit
  }

  /** A folder is never refused as too large, whatever its size, but is
      refused for the quota like a file. */
  lemma FolderSkipsSizeCap(ins: InsertFile, used: int)
    requires ins.isFolder == Some(true)
    ensures Admission(ins, used) != TooLarge
    ensures Admission(ins, used) == OverQuota <==> used + ins.size > STORAGE_LIMIT
  {
  }

  /** An admitted row keeps the total within the storage limit, provided the
      total was within it before. */
  lemma {:induction false} QuotaPreserved(t: Table, ins: InsertFile, id: int)
    requires TotalSize(t) <= STORAGE_LIMIT
    requires Admission(ins, TotalSize(t)) == Admit
    ensures TotalSize(t + [ToRecord(id, ins)]) <= STORAGE_LIMIT
  {
    TotalSizeAppend(t, ToRecord(id, ins));
  }

  /** The storage summary for a given total. */
  function Summary(used: int): (s: Reply)
    ensures s.Usage? && s.used == used && s.total == STORAGE_LIMIT
    ensures s.available == s.total - s.used
  {
    Usage(used, STORAGE_LIMIT, STORAGE_LIMIT - used)
  }

  /** An upload that passes the per-file cap is admitted exactly when its size
      fits in what the summary reports as available. */
  lemma AdmitIffAvailable(ins: InsertFile, used: int)
    requires InsertedIsFolder(ins) || ins.size <= MAX_FILE_SIZE
    ensures Admission(ins, used) == Admit <==> ins.size <= Summary(used).available
  {
  }

  /** Admitting a non-folder lowers what is available by its size, and never
      below zero. */
  lemma {:induction false} AdmitLowersAvailable(t: Table, ins: InsertFile, id: int)
    requires !InsertedIsFolder(ins) && Admission(ins, TotalSize(t)) == Admit
    ensures Summary(TotalSize(t + [ToRecord(id, ins)])).available
      == Summary(TotalSize(t)).available - ins.size
    ensures Summary(TotalSize(t + [ToRecord(id, ins)])).available >= 0
  {
    TotalSizeAppend(t, ToRecord(id, ins));
  }

  /** GET /api/storage. */
  method StorageSummary(store: FileStore) returns (reply: Reply)
    ensures reply == Summary(TotalSize(store.files))
    ensures reply.available == STORAGE_LIMIT - TotalSize(store.files)
  {
    var used := store.GetTotalSize();
    reply := Summary(used);
  }

  /** POST /api/files: a refused upload leaves the store as it was and
      answers 400 with the reason; an admitted one is inserted, once, and the
      new row is the answer. */
  method PostFile(store: FileStore, ins: InsertFile) returns (reply: Reply)
    requires store.Valid()
    modifies store
    ensures store.Valid() && store.removedLog == old(store.removedLog)
    ensures Admission(ins, TotalSize(old(store.files))) != Admit ==>
      && reply == Failure(400, Admission(ins, TotalSize(old(store.files))).Message())
      && store.files == old(store.files) && store.nextId == old(store.nextId)
    ensures Admission(ins, TotalSize(old(store.files))) == Admit ==>
      && reply == Row(ToRecord(old(store.nextId), ins))
      && store.files == old(store.files) + [reply.row]
      && store.nextId == old(store.nextId) + 1
    ensures TotalSize(old(store.files)) <= STORAGE_LIMIT ==> TotalSize(store.files) <= STORAGE_LIMIT
  {
    if !InsertedIsFolder(ins) && ins.size > MAX_FILE_SIZE {
      return Failure(400, "File too large");
    }
    var total := store.GetTotalSize();
    if total + ins.size > STORAGE_LIMIT {
      return Failure(400, "Storage limit exceeded");
    }
    ghost var before := store.files;
    var file := store.CreateFile(ins);
    if total <= STORAGE_LIMIT {
      QuotaPreserved(before, ins, file.id);
    }
    reply := Row(file);
  }

  /** PATCH /api/files/:id: the updated row, or no body when no row has that
      id (and then nothing changes); a NaN id makes the update fail, which the
      handler does not catch. */
  method PatchFile(store: FileStore, param: string, u: FileUpdate) returns (reply: Reply)
    requires store.Valid()
    modifies store
    ensures store.Valid() && store.nextId == old(store.nextId)
    ensures store.removedLog == old(store.removedLog)
    ensures reply.MaybeRow? || reply.Rejected?
    ensures reply.Rejected? <==> Number(param) == NaN
    ensures Number(param) == NaN ==> store.files == old(store.files)
    ensures Number(param).Int? ==>
      && store.files == Updated(old(store.files), Number(param).value, u)
      && reply.found == Find(store.files, Number(param).value)
    ensures reply.MaybeRow? && reply.found.None? ==> store.files == old(store.files)
  {
    var n := Number(param);
    if n.NaN? {
      return Rejected;
    }
    var file := store.UpdateFile(n.value, u);
    reply := MaybeRow(file);
  }

  /** DELETE /api/files/:id: whether or not a row has that id, the answer is
      success and the store loses the cascade of that id; a NaN id makes the
      lookup fail, which the handler does not catch. */
  method DeleteFileById(store: FileStore, param: string, ghost rank: map<int, nat>)
    returns (reply: Reply)
    requires store.Valid() && RankedBy(store.files, rank)
    modifies store
    ensures reply == Success || reply == Rejected
    ensures reply == Rejected <==> Number(param) == NaN
    ensures store.Valid() && store.nextId == old(store.nextId)
    ensures Number(param) == NaN ==> store.files == old(store.files)
    ensures Number(param).Int? ==>
      store.files == Without(old(store.files), Cascade(old(store.files), Number(param).value, rank))
  {
    var n := Number(param);
    if n.NaN? {
      return Rejected;
    }
    ghost var deleted := store.DeleteFile(n.value, rank);
    reply := Success;
  }

  /** The text a JavaScript template literal makes of a plain object. */
  const ObjectText: string := "[object Object]"

  /** GET /api/files/search as written: the handler hands `searchFiles` an
      object of search parameters where it takes a string, so the pattern
      becomes the object's text and the query parameter plays no part. */
  function SearchAsWritten(t: Table, q: Option<string>): (found: Table)
    ensures forall r :: r in found <==> r in t && JsString.Contains(r.name, ObjectText)
  {
    Search(t, ObjectText)
  }

  /** The search as evidently intended: the rows whose name contains the query
      parameter; with no parameter, every row. */
  function SearchByQuery(t: Table, q: Option<string>): (found: Table)
    ensures forall r :: r in found <==> r in t && JsString.Contains(r.name, q.GetOr(""))
    ensures q.None? ==> found == t
  {
    SearchEmpty(t);
    Search(t, q.GetOr(""))
  }

  /** A row named "a" is found by the query "a" as intended, but not by the
      handler as written. */
  lemma SearchIgnoresQuery()
    ensures var t := [FileRecord(1, "a", "/a", 1, "text/plain", "", None, false)];
      SearchByQuery(t, Some("a")) == t && SearchAsWritten(t, Some("a")) == []
  {
    var t := [FileRecord(1, "a", "/a", 1, "text/plain", "", None, false)];
    assert JsString.StartsWith("a", "a");
    assert !JsString.Contains("a", ObjectText);
  }

  /** GET /api/files/search, corrected to pass the query parameter. */
  method SearchFiles(store: FileStore, q: Option<string>) returns (reply: Reply)
    ensures reply == Rows(SearchByQuery(store.files, q))
    ensures forall r :: r in reply.rows <==>
      r in store.files && JsString.Contains(r.name, q.GetOr(""))
  {
    var found := store.SearchFiles(q.GetOr(""));
    reply := Rows(found);
  }
}
