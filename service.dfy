/** The running service: the `files` table, its AUTOINCREMENT counter and the
    upload folder as fields that the handlers update step by step, each
    handler proved to have exactly the effect the Store module gives it. */
module Service {
  import opened Records
  import Store

  class Uploader {
    var table: Store.Table
    var nextId: int
    var files: Store.Disk

    /** The fields as one value of the specification's state. */
    function State(): Store.State
      reads this
    {
      Store.State(table, nextId, files)
    }

    ghost predicate Valid()
      reads this
    {
      Store.Valid(State())
    }

    /** Schema creation: an empty table whose counter starts at 1; the
        upload folder holds `disk`. */
    constructor (disk: Store.Disk)
      ensures Valid() && State() == Store.Init(disk)
    {
      table := map[];
      nextId := 1;
      files := disk;
    }

    /** Write the bytes to `uploads/<filename>`, then insert the row. */
    method UploadCode(filename: string, data: Bytes) returns (saved: Saved)
      requires Valid()
      modifies this
      ensures Valid()
      ensures Store.Step(State(), saved) == Store.Upload(old(State()), filename, data)
    {
      var savePath := SavePath(filename);
      files := files[savePath := data];
      table := table[nextId := Record(filename, savePath)];
      nextId := nextId + 1;
      saved := Saved(filename, savePath);
    }

    /** Look the row up, remove its file if there is one, then drop the row.
        `locked` holds the paths whose removal the operating system refuses. */
    method DeleteFile(id: int, locked: set<string>) returns (reply: Reply<()>)
      requires Valid()
      modifies this
      ensures Valid()
      ensures Store.Step(State(), reply) == Store.Delete(old(State()), id, locked)
    {
      if id !in table {
        return NotFound(NotInDatabase);
      }
      var filepath := table[id].filepath;
      if filepath in files {
        if filepath in locked {
          return ServerError;
        }
        files := files - {filepath};
      }
      table := table - {id};
      reply := Ok(());
    }

    /** The scan half of the reconciler: walk the selected row ids in
        order and keep those whose file is missing, each once. */
    method FindOrphanedIds(records: seq<int>) returns (orphanedIds: seq<int>)
      requires forall i :: 0 <= i < |records| ==> records[i] in table
      requires Store.Distinct(records)
      ensures forall id :: id in orphanedIds <==>
                id in records && table[id].filepath !in files
      ensures Store.Distinct(orphanedIds)
    {
      orphanedIds := [];
      var i := 0;
      while i < |records|
        invariant 0 <= i <= |records|
        invariant forall id :: id in orphanedIds <==>
                    id in records[..i] && table[id].filepath !in files
        invariant Store.Distinct(orphanedIds)
      {
        var fileId := records[i];
        assert records[..i + 1] == records[..i] + [fileId];
        if table[fileId].filepath !in files {
          assert fileId !in records[..i];
          orphanedIds := orphanedIds + [fileId];
        }
        i := i + 1;
      }
      assert records[..i] == records;
    }

    /** The delete half of the reconciler: delete the listed rows one by
        one; ids without a row are skipped, as SQL `DELETE` does. */
    method DeleteRows(ids: seq<int>)
      modifies this
      ensures forall id :: id in table <==> id in old(table) && id !in ids
      ensures forall id :: id in table ==> table[id] == old(table)[id]
      ensures files == old(files) && nextId == old(nextId)
    {
      var j := 0;
      while j < |ids|
        invariant 0 <= j <= |ids|
        invariant forall id :: id in table <==> id in old(table) && id !in ids[..j]
        invariant forall id :: id in table ==> table[id] == old(table)[id]
        invariant files == old(files) && nextId == old(nextId)
      {
        assert ids[..j + 1] == ids[..j] + [ids[j]];
        table := table - {ids[j]};
        j := j + 1;
      }
      assert ids[..j] == ids;
    }

    /** Collect the ids of the rows whose file is missing, then delete those
        rows; report how many were deleted. */
    method CleanOrphanedFiles() returns (removed: nat)
      requires Valid()
      modifies this
      ensures Valid()
      ensures Store.Step(State(), removed) == Store.Clean(old(State()))
    {
      var records := Store.RowIds(State());
      var orphanedIds := FindOrphanedIds(records);
      DeleteRows(orphanedIds);
      removed := |orphanedIds|;
      Store.RemovingOrphans(old(State()), orphanedIds, table);
    }
  }
}
