/** The service's state and the effect of each request handler on it, as
    functions. The SQLite table `files` is a map from id to record plus the
    AUTOINCREMENT counter; the upload folder is a map from path to bytes. */
module Store {
  import opened Records

  type Table = map<int, Record>
  type Disk = map<string, Bytes>

  datatype State = State(table: Table, nextId: int, files: Disk)

  /** A handler's new state together with its reply. */
  datatype Step<T> = Step(state: State, reply: T)

  /** The AUTOINCREMENT invariant: every row's id was issued before, ids are
      issued from 1 upwards, and `nextId` is the next one to issue. */
  ghost predicate Valid(s: State) {
    s.nextId >= 1 && forall id :: id in s.table ==> 1 <= id < s.nextId
  }

  /** The state right after the schema is created: an empty table whose
      counter starts at 1, next to whatever the upload folder holds. */
  function Init(disk: Disk): (s: State)
    ensures Valid(s) && s.table == map[] && s.nextId == 1 && s.files == disk
  {
    State(map[], 1, disk)
  }

  /** Two tables with the same ids and the same row under each id are equal. */
  lemma SameRows(a: Table, b: Table)
    requires forall id :: id in a <==> id in b
    requires forall id :: id in a ==> a[id] == b[id]
    ensures a == b
  {
    forall id | id in b ensures id in a { }
    forall id | id in a ensures id in b && a[id] == b[id] { }
  }

  /** Strictly increasing, so in particular without repetitions. */
  ghost predicate Ascending(ids: seq<int>) {
    forall i, j :: 0 <= i < j < |ids| ==> ids[i] < ids[j]
  }

  /** A sequence with no element twice. */
  ghost predicate Distinct(ids: seq<int>) {
    forall i, j :: 0 <= i < j < |ids| ==> ids[i] != ids[j]
  }

  /** A sequence without repetitions has as many elements as its set. */
  lemma {:induction false} DistinctCard(ids: seq<int>)
    requires Distinct(ids)
    ensures |set x | x in ids| == |ids|
  {
    if ids != [] {
      var rest := ids[1..];
      assert Distinct(rest) by {
        forall i, j | 0 <= i < j < |rest| ensures rest[i] != rest[j] {
          assert rest[i] == ids[i + 1] && rest[j] == ids[j + 1];
        }
      }
      DistinctCard(rest);
      assert ids[0] !in rest by {
        forall k | 0 <= k < |rest| ensures rest[k] != ids[0] {
          assert rest[k] == ids[k + 1];
        }
      }
      assert (set x | x in ids) == (set x | x in rest) + {ids[0]} by {
        assert ids == [ids[0]] + rest;
      }
    }
  }

  /** The ids of the rows in `[lo, hi)`, in ascending order: a table scan in
      rowid order. */
  function IdsBetween(t: Table, lo: int, hi: int): (r: seq<int>)
    ensures forall i :: 0 <= i < |r| ==> r[i] in t && lo <= r[i] < hi
    ensures forall id :: id in t && lo <= id < hi ==> id in r
    ensures Ascending(r)
    decreases hi - lo
  {
    if lo >= hi then []
    else if lo in t then [lo] + IdsBetween(t, lo + 1, hi)
    else IdsBetween(t, lo + 1, hi)
  }

  /** `SELECT id ... FROM files`: every row id once, ascending. */
  function RowIds(s: State): (r: seq<int>)
    requires Valid(s)
    ensures forall id :: id in r <==> id in s.table
    ensures Ascending(r)
    ensures Distinct(r) && |r| == |s.table|
  {
    var r := IdsBetween(s.table, 1, s.nextId);
    assert (set x | x in r) == s.table.Keys;
    DistinctCard(r);
    r
  }

  /** The list handler: one `{id, filename}` entry per row, in id order. */
  function ListFiles(s: State): (r: seq<Entry>)
    requires Valid(s)
    ensures |r| == |s.table|
    ensures forall i :: 0 <= i < |r| ==>
              r[i].id in s.table && r[i].filename == s.table[r[i].id].filename
    ensures forall id :: id in s.table ==> exists i :: 0 <= i < |r| && r[i].id == id
    ensures forall i, j :: 0 <= i < j < |r| ==> r[i].id < r[j].id
  {
    var ids := RowIds(s);
    var r := EntriesOf(s.table, ids);
    forall i | 0 <= i < |r|
      ensures r[i].id in s.table && r[i].filename == s.table[r[i].id].filename
    {
      assert r[i] == Entry(ids[i], s.table[ids[i]].filename);
    }
    assert forall id :: id in s.table ==> exists i :: 0 <= i < |r| && r[i].id == id by {
      forall id | id in s.table ensures exists i :: 0 <= i < |r| && r[i].id == id {
        var i :| 0 <= i < |ids| && ids[i] == id;
        assert r[i].id == id;
      }
    }
    r
  }

  /** The `{id, filename}` pairs of the given rows, in the given order. */
  function EntriesOf(t: Table, ids: seq<int>): (r: seq<Entry>)
    requires forall i :: 0 <= i < |ids| ==> ids[i] in t
    ensures |r| == |ids|
    ensures forall i :: 0 <= i < |r| ==> r[i] == Entry(ids[i], t[ids[i]].filename)
  {
    if ids == [] then [] else [Entry(ids[0], t[ids[0]].filename)] + EntriesOf(t, ids[1..])
  }

  /** The download handler: a 404 naming the database when the id has no
      row, a 404 naming the server when the row's file is gone, otherwise the
      stored bytes. */
  function DownloadFile(s: State, id: int): (r: Reply<Bytes>)
    ensures r == NotFound(NotInDatabase) <==> id !in s.table
    ensures r == NotFound(NotOnServer) <==>
              id in s.table && s.table[id].filepath !in s.files
    ensures r.Ok? <==> id in s.table && s.table[id].filepath in s.files
    ensures r.Ok? ==> r.value == s.files[s.table[id].filepath]
    ensures !r.ServerError?
  {
    if id !in s.table then NotFound(NotInDatabase)
    else
      var path := s.table[id].filepath;
      if path !in s.files then NotFound(NotOnServer)
      else Ok(s.files[path])
  }

  /** The upload handler: the bytes land at `SavePath(filename)`, replacing
      any file already there, and a new row under a fresh id records the
      name and the path. */
  function Upload(s: State, filename: string, data: Bytes): (r: Step<Saved>)
    requires Valid(s)
    ensures Valid(r.state)
    ensures r.reply == Saved(filename, SavePath(filename))
    ensures s.nextId !in s.table && r.state.nextId > s.nextId
    ensures r.state.table.Keys == s.table.Keys + {s.nextId}
    ensures r.state.table[s.nextId] == Record(filename, SavePath(filename))
    ensures forall id :: id in s.table ==> r.state.table[id] == s.table[id]
    ensures SavePath(filename) in r.state.files
    ensures r.state.files[SavePath(filename)] == data
    ensures forall p :: p != SavePath(filename) ==>
              (p in r.state.files <==> p in s.files) &&
              (p in s.files ==> r.state.files[p] == s.files[p])
  {
    var path := SavePath(filename);
    var files := s.files[path := data];
    var table := s.table[s.nextId := Record(filename, path)];
    Step(State(table, s.nextId + 1, files), Saved(filename, path))
  }

  /** The delete handler. `locked` holds the paths whose removal the
      operating system refuses. An unknown id is a 404; a file that exists
      but cannot be removed is a 500 and keeps the row; otherwise the file
      (if any) and the row are both gone. */
  function Delete(s: State, id: int, locked: set<string>): (r: Step<Reply<()>>)
    requires Valid(s)
    ensures Valid(r.state) && r.state.nextId == s.nextId
    ensures r.reply == NotFound(NotInDatabase) <==> id !in s.table
    ensures r.reply == ServerError <==>
              id in s.table && s.table[id].filepath in s.files &&
              s.table[id].filepath in locked
    ensures r.reply.Ok? <==>
              id in s.table &&
              !(s.table[id].filepath in s.files && s.table[id].filepath in locked)
    ensures !r.reply.Ok? ==> r.state == s
    ensures r.reply.Ok? ==>
              id !in r.state.table && s.table[id].filepath !in r.state.files &&
              r.state.table.Keys == s.table.Keys - {id} &&
              (forall k :: k in r.state.table ==> r.state.table[k] == s.table[k]) &&
              (forall p :: p != s.table[id].filepath ==>
                 (p in r.state.files <==> p in s.files) &&
                 (p in s.files ==> r.state.files[p] == s.files[p]))
  {
    if id !in s.table then Step(s, NotFound(NotInDatabase))
    else
      var path := s.table[id].filepath;
      if path in s.files && path in locked then Step(s, ServerError)
      else
        var files := if path in s.files then s.files - {path} else s.files;
        Step(State(s.table - {id}, s.nextId, files), Ok(()))
  }

  /** The rows whose file is missing from the upload folder. */
  ghost function Orphans(s: State): set<int>
  {
    set id | id in s.table && s.table[id].filepath !in s.files
  }

  /** The reconciler: drops exactly the orphaned rows and reports how many
      it dropped; the files, the counter and every other row stay as they
      were. */
  function Clean(s: State): (r: Step<nat>)
    requires Valid(s)
    ensures Valid(r.state) && r.state.nextId == s.nextId && r.state.files == s.files
    ensures forall id :: id in r.state.table <==>
              id in s.table && s.table[id].filepath in s.files
    ensures forall id :: id in r.state.table ==> r.state.table[id] == s.table[id]
    ensures r.reply == |Orphans(s)| == |s.table| - |r.state.table|
  {
    var kept := map id | id in s.table && s.table[id].filepath in s.files :: s.table[id];
    var removed := set id | id in s.table && s.table[id].filepath !in s.files;
    assert kept.Keys == s.table.Keys - removed;
    Step(State(kept, s.nextId, s.files), |removed|)
  }

  /** Deleting the rows listed in `ids`, when `ids` names every orphaned row
      once, is what the reconciler does. */
  lemma {:induction false} RemovingOrphans(s: State, ids: seq<int>, t: Table)
    requires Valid(s)
    requires forall id :: id in ids <==> id in Orphans(s)
    requires Distinct(ids)
    requires forall id :: id in t <==> id in s.table && id !in ids
    requires forall id :: id in t ==> t[id] == s.table[id]
    ensures Clean(s) == Step(State(t, s.nextId, s.files), |ids|)
  {
    DistinctCard(ids);
    forall id | id in Orphans(s) ensures id in (set x | x in ids) { }
    forall id | id in (set x | x in ids) ensures id in Orphans(s) { }
    assert (set x | x in ids) == Orphans(s);
    SameRows(t, Clean(s).state.table);
  }
}
