/** The file store: one table of rows and the serial that hands out ids. The
    queries read the table; insert, update and the recursive delete change it
    in place. Each row the delete removes is also appended to a ghost log, so
    that the order of the deletions can be stated. */
module Storage {
  import opened Schema
  import opened Table

  class FileStore {
    /** The rows of the `files` table. The model keeps them in the order they
        were inserted; the database promises no order. */
    var files: Table
    /** The next value of the `id` serial. */
    var nextId: int
    /** Every id the store has deleted, in the order of the deletions. */
    ghost var removedLog: seq<int>

    /** Ids are unique and every id was handed out by the serial. */
    ghost predicate Valid()
      reads this
    {
      SerialIds(files, nextId)
    }

    /** An empty table whose serial starts at 1. */
    constructor ()
      ensures Valid()
      ensures files == [] && nextId == 1 && removedLog == []
    {
      files := [];
      nextId := 1;
      removedLog := [];
    }

    /** getFiles: the rows with that parentId (in the model's table order). */
    method GetFiles(parentId: Option<int>) returns (kids: Table)
      ensures kids == ChildrenOf(files, parentId)
      ensures forall r :: r in kids <==> r in files && r.parentId == parentId
    {
      kids := ChildrenOf(files, parentId);
    }

    /** getFile: the row with that id, if there is one. */
    method GetFile(id: int) returns (f: Option<FileRecord>)
      requires Valid()
      ensures f == Find(files, id)
      ensures f.Some? ==> f.value in files && f.value.id == id
      ensures f.Some? ==> forall r :: r in files && r.id == id ==> r == f.value
      ensures f.None? <==> forall r :: r in files ==> r.id != id
    {
      f := Find(files, id);
      if f.Some? {
        forall r | r in files && r.id == id
          ensures r == f.value
        {
          FindUnique(files, r);
        }
      }
    }

    /** getTotalSize: the summed size of the non-folder rows. */
    method GetTotalSize() returns (total: int)
      ensures total == TotalSize(files)
      ensures (forall r :: r in files ==> r.isFolder) ==> total == 0
    {
      total := TotalSize(files);
    }

    /** searchFiles: the rows, folders included, whose name contains `query`. */
    method SearchFiles(query: string) returns (found: Table)
      ensures found == Search(files, query)
      ensures forall r :: r in found <==> r in files && JsString.Contains(r.name, query)
    {
      found := Search(files, query);
    }

    /** createFile: the insert gets the next serial value as its id, which no
        row has; the row is appended and every existing row is kept. */
    method CreateFile(ins: InsertFile) returns (f: FileRecord)
      requires Valid()
      modifies this
      ensures Valid()
      ensures f == ToRecord(old(nextId), ins)
      ensures forall r :: r in old(files) ==> r.id != f.id
      ensures files == old(files) + [f]
      ensures Find(files, f.id) == Some(f)
      ensures nextId == old(nextId) + 1 && removedLog == old(removedLog)
    {
      f := ToRecord(nextId, ins);
      UniqueAppend(files, f);
      files := files + [f];
      nextId := nextId + 1;
      FindUnique(files, f);
    }

    /** updateFile: the update is merged into the row with that id and the
        merged row returned; with no such row nothing changes and nothing is
        returned. */
    method UpdateFile(id: int, u: FileUpdate) returns (f: Option<FileRecord>)
      requires Valid()
      modifies this
      ensures Valid()
      ensures files == Updated(old(files), id, u)
      ensures f.None? <==> Find(old(files), id).None?
      ensures f.Some? ==> f.value == Merge(Find(old(files), id).value, u)
      ensures f.None? ==> files == old(files)
      ensures f == Find(files, id)
      ensures nextId == old(nextId) && removedLog == old(removedLog)
    {
      var before := Find(files, id);
      UpdatedLaws(files, id, u);
      FindUpdated(files, id, u);
      files := Updated(files, id, u);
      f := if before.Some? then Some(Merge(before.value, u)) else None;
    }

    /** deleteFile: with no row of that id, nothing happens; otherwise, for a
        folder, its children are deleted first, and then the row itself.
        `rank` witnesses that the parent chains have no cycle, which is what
        makes the recursion end. The rows removed are those of `Cascade`, each
        once, children before their parents; `deleted` is the order. */
    method DeleteFile(id: int, ghost rank: map<int, nat>) returns (ghost deleted: seq<int>)
      requires Valid() && RankedBy(files, rank)
      modifies this
      ensures Valid()
      ensures files == Without(old(files), Cascade(old(files), id, rank))
      ensures nextId == old(nextId)
      ensures removedLog == old(removedLog) + deleted
      ensures DeletionOrder(old(files), Cascade(old(files), id, rank), deleted)
      decreases Rank(rank, id), 1
    {
      var file := GetFile(id);
      if file.None? {
        NothingDeleted(files, rank, id);
        return [];
      }
      ghost var t0 := files;
      ghost var log0 := removedLog;
      if file.value.isFolder {
        var children := GetFiles(Some(id));
        StartDeleting(t0, rank, id, children);
        ghost var done := DeleteChildren(id, children, rank);
        FolderDeleted(t0, rank, id, done);
        deleted := done + [id];
        AppendAssoc(log0, done, [id]);
      } else {
        FileDeleted(t0, rank, id);
        deleted := [id];
      }
      RemoveRow(id);
    }

    /** Deletes the row `id` itself and records it in the removal log. */
    method RemoveRow(id: int)
      requires Valid()
      modifies this
      ensures Valid() && nextId == old(nextId)
      ensures files == Without(old(files), {id})
      ensures removedLog == old(removedLog) + [id]
    {
      SerialIdsWithout(files, nextId, {id});
      files := Without(files, {id});
      removedLog := removedLog + [id];
    }

    /** The loop of deleteFile over a folder's children, listed before any of
        them is deleted: each child in turn is deleted with its own cascade. */
    method DeleteChildren(id: int, children: Table, ghost rank: map<int, nat>)
      returns (ghost done: seq<int>)
      requires Valid() && Deleting(files, rank, id, children)
      modifies this
      ensures Valid() && nextId == old(nextId)
      ensures files == Without(old(files), Cascade(old(files), id, rank) - {id})
      ensures removedLog == old(removedLog) + done
      ensures DeletionOrder(old(files), Cascade(old(files), id, rank) - {id}, done)
      decreases Rank(rank, id), 0
    {
      ghost var t0 := files;
      ghost var log0 := removedLog;
      NothingGoneYet(t0, rank, id, children);
      done := [];
      var i := 0;
      while i < |children|
        invariant 0 <= i <= |children|
        invariant Valid() && nextId == old(nextId)
        invariant files == Without(t0, GoneBefore(t0, rank, id, children, i))
        invariant removedLog == log0 + done
        invariant DeletionOrder(t0, GoneBefore(t0, rank, id, children, i), done)
      {
        ChildStepBefore(t0, rank, id, children, i);
        ghost var more := DeleteFile(children[i].id, rank);
        ChildStepAfter(t0, rank, id, children, i, done, more);
        AppendAssoc(log0, done, more);
        done := done + more;
        i := i + 1;
      }
      AllChildrenGone(t0, rank, id, children);
    }
  }

  /** The ids of `t` are unique and all lie in `[1, next)`, the values the
      serial has handed out. */
  ghost predicate SerialIds(t: Table, next: int) {
    && next >= 1
    && UniqueIds(t)
    && (forall r :: r in t ==> 1 <= r.id < next)
  }

  /** Deleting rows keeps the ids serial-issued and unique. */
  lemma SerialIdsWithout(t: Table, next: int, gone: set<int>)
    requires SerialIds(t, next)
    ensures SerialIds(Without(t, gone), next)
  {
    WithoutUnique(t, gone);
  }

  // ---------------------------------------------------------------------
  // The steps of the recursive delete

  lemma AppendAssoc(a: seq<int>, b: seq<int>, c: seq<int>)
    ensures (a + b) + c == a + (b + c)
  {
  }

  /** Deleting an id that no row has removes nothing. */
  lemma NothingDeleted(t: Table, rank: map<int, nat>, id: int)
    requires RankedBy(t, rank) && Find(t, id).None?
    ensures Cascade(t, id, rank) == {}
    ensures Without(t, Cascade(t, id, rank)) == t
    ensures DeletionOrder(t, Cascade(t, id, rank), [])
  {
    WithoutNothing(t);
  }

  /** Deleting a row that is not a folder removes that row alone. */
  lemma FileDeleted(t: Table, rank: map<int, nat>, id: int)
    requires RankedBy(t, rank) && UniqueIds(t)
    requires Find(t, id).Some? && !Find(t, id).value.isFolder
    ensures Cascade(t, id, rank) == {id}
    ensures DeletionOrder(t, Cascade(t, id, rank), [id])
  {
  }

  /** The state of a folder's delete that stays fixed while its children are
      deleted: the table it started from, ranked and with unique ids, the
      folder, and its children as listed before any deletion. */
  ghost predicate Deleting(t: Table, rank: map<int, nat>, id: int, kids: Table) {
    && RankedBy(t, rank) && UniqueIds(t)
    && Find(t, id).Some? && Find(t, id).value.isFolder
    && kids == ChildrenOf(t, Some(id))
    && forall k :: k in kids ==> Rank(rank, k.id) < Rank(rank, id)
  }

  /** What the deletes of the first `i` children remove. */
  ghost function GoneBefore(t: Table, rank: map<int, nat>, id: int, kids: Table, i: nat): set<int>
    requires Deleting(t, rank, id, kids) && i <= |kids|
  {
    assert forall k :: k in kids[..i] ==> k in kids;
    CascadeAll(t, kids[..i], rank, Rank(rank, id))
  }

  /** A folder's children, as listed before the delete, all rank below it. */
  lemma StartDeleting(t: Table, rank: map<int, nat>, id: int, kids: Table)
    requires RankedBy(t, rank) && UniqueIds(t)
    requires Find(t, id).Some? && Find(t, id).value.isFolder
    requires kids == ChildrenOf(t, Some(id))
    ensures Deleting(t, rank, id, kids)
  {
    FindUnique(t, Find(t, id).value);
    ChildrenRanked(t, rank, id);
  }

  /** Before the first child nothing is gone. */
  lemma NothingGoneYet(t: Table, rank: map<int, nat>, id: int, kids: Table)
    requires Deleting(t, rank, id, kids)
    ensures GoneBefore(t, rank, id, kids, 0) == {}
    ensures Without(t, GoneBefore(t, rank, id, kids, 0)) == t
    ensures DeletionOrder(t, GoneBefore(t, rank, id, kids, 0), [])
  {
    assert kids[..0] == [];
    WithoutNothing(t);
  }

  /** Before deleting child `i`: the table at that point is ranked, and the
      child ranks below the folder. */
  lemma ChildStepBefore(t: Table, rank: map<int, nat>, id: int, kids: Table, i: nat)
    requires Deleting(t, rank, id, kids) && i < |kids|
    ensures RankedBy(Without(t, GoneBefore(t, rank, id, kids, i)), rank)
    ensures Rank(rank, kids[i].id) < Rank(rank, id)
  {
    assert kids[i] in kids;
    CascadeStep(t, rank, kids, Rank(rank, id), i);
  }

  /** After deleting child `i`: the table has lost the rows of the first
      `i + 1` children's cascades, and the log remains in deletion order. */
  lemma ChildStepAfter(t: Table, rank: map<int, nat>, id: int, kids: Table, i: nat,
                       done: seq<int>, more: seq<int>)
    requires Deleting(t, rank, id, kids) && i < |kids|
    requires DeletionOrder(t, GoneBefore(t, rank, id, kids, i), done)
    requires RankedBy(Without(t, GoneBefore(t, rank, id, kids, i)), rank)
    requires DeletionOrder(Without(t, GoneBefore(t, rank, id, kids, i)),
               Cascade(Without(t, GoneBefore(t, rank, id, kids, i)), kids[i].id, rank),
               more)
    ensures var w := Without(t, GoneBefore(t, rank, id, kids, i));
      Without(w, Cascade(w, kids[i].id, rank)) == Without(t, GoneBefore(t, rank, id, kids, i + 1))
    ensures DeletionOrder(t, GoneBefore(t, rank, id, kids, i + 1), done + more)
  {
    var bound := Rank(rank, id);
    var gone := GoneBefore(t, rank, id, kids, i);
    CascadeStep(t, rank, kids, bound, i);
    forall x | x in gone
      ensures Rank(rank, x) < Rank(rank, id)
    {
      CascadeAllRows(t, kids[..i], rank, bound, x);
    }
    assert kids[i] in kids;
    LogAppendChild(t, rank, id, gone, done, kids[i], more);
  }

  /** Once every child is deleted, what is gone is the folder's cascade
      without the folder itself. */
  lemma AllChildrenGone(t: Table, rank: map<int, nat>, id: int, kids: Table)
    requires Deleting(t, rank, id, kids)
    ensures GoneBefore(t, rank, id, kids, |kids|) == Cascade(t, id, rank) - {id}
  {
    var bound := Rank(rank, id);
    assert kids[..|kids|] == kids;
    var below := CascadeAll(t, kids, rank, bound);
    assert Cascade(t, id, rank) == {id} + below;
    if id in below {
      CascadeAllRows(t, kids, rank, bound, id);
    }
  }

  /** Deleting the folder itself after its descendants completes its cascade,
      and the folder comes after everything deleted before it. */
  lemma FolderDeleted(t: Table, rank: map<int, nat>, id: int, done: seq<int>)
    requires RankedBy(t, rank) && UniqueIds(t)
    requires Find(t, id).Some? && Find(t, id).value.isFolder
    requires DeletionOrder(t, Cascade(t, id, rank) - {id}, done)
    ensures Without(Without(t, Cascade(t, id, rank) - {id}), {id}) == Without(t, Cascade(t, id, rank))
    ensures DeletionOrder(t, Cascade(t, id, rank), done + [id])
  {
    var c := Cascade(t, id, rank);
    forall x | x in done
      ensures Find(t, x).Some? && Rank(rank, x) < Rank(rank, id)
    {
      CascadeRows(t, id, rank, x);
      StartDeleting(t, rank, id, ChildrenOf(t, Some(id)));
      AllChildrenGone(t, rank, id, ChildrenOf(t, Some(id)));
      CascadeAllRows(t, ChildrenOf(t, Some(id)), rank, Rank(rank, id), x);
    }
    LogAppendFolder(t, rank, id, done);
    WithoutWithout(t, c - {id}, {id});
    assert (c - {id}) + {id} == c;
  }
}
