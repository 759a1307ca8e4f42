/** What the handlers promise when they are run one after another. */
module Properties {
  import opened Records
  import opened Store

  /** Downloading the id an upload was given returns the uploaded bytes. */
  lemma UploadThenDownload(s: State, filename: string, data: Bytes)
    requires Valid(s)
    ensures DownloadFile(Upload(s, filename, data).state, s.nextId) == Ok(data)
  {
  }

  /** Extending the table by a row at `n` extends the ascending scan of
      `[lo, n)` by `n`. */
  lemma {:induction false} IdsBetweenInsert(t: Table, n: int, rec: Record, lo: int)
    requires lo <= n
    ensures IdsBetween(t[n := rec], lo, n + 1) == IdsBetween(t, lo, n) + [n]
    decreases n - lo
  {
    if lo < n {
      IdsBetweenInsert(t, n, rec, lo + 1);
    }
  }

  /** After an upload the listing is the old listing followed by one entry
      for the new row. */
  lemma {:induction false} UploadThenList(s: State, filename: string, data: Bytes)
    requires Valid(s)
    ensures ListFiles(Upload(s, filename, data).state) ==
            ListFiles(s) + [Entry(s.nextId, filename)]
  {
    var s' := Upload(s, filename, data).state;
    var rec := Record(filename, SavePath(filename));
    assert s' == State(s.table[s.nextId := rec], s.nextId + 1, s'.files);
    ListAfterInsert(s, rec, s'.files);
  }

  /** Inserting a row under the next id, whatever the folder then holds,
      appends that row's entry to the listing. */
  lemma ListAfterInsert(s: State, rec: Record, files: Disk)
    requires Valid(s)
    ensures Valid(State(s.table[s.nextId := rec], s.nextId + 1, files))
    ensures ListFiles(State(s.table[s.nextId := rec], s.nextId + 1, files)) ==
            ListFiles(s) + [Entry(s.nextId, rec.filename)]
  {
    var s' := State(s.table[s.nextId := rec], s.nextId + 1, files);
    var ids := IdsBetween(s.table, 1, s.nextId);
    calc {
      ListFiles(s');
      EntriesOf(s'.table, IdsBetween(s'.table, 1, s.nextId + 1));
      { IdsBetweenInsert(s.table, s.nextId, rec, 1); }
      EntriesOf(s.table[s.nextId := rec], ids + [s.nextId]);
      { EntriesOfAppend(s.table, ids, s.nextId, rec); }
      EntriesOf(s.table, ids) + [Entry(s.nextId, rec.filename)];
      ListFiles(s) + [Entry(s.nextId, rec.filename)];
    }
  }

  /** Listing one more row at the end of the scan adds its entry at the end,
      provided the earlier rows are untouched. */
  lemma {:induction false} EntriesOfAppend(t: Table, ids: seq<int>, n: int, rec: Record)
    requires forall i :: 0 <= i < |ids| ==> ids[i] in t && ids[i] != n
    ensures EntriesOf(t[n := rec], ids + [n]) == EntriesOf(t, ids) + [Entry(n, rec.filename)]
  {
    if ids != [] {
      EntriesOfAppend(t, ids[1..], n, rec);
      assert (ids + [n])[1..] == ids[1..] + [n];
    }
  }

  /** Uploading the same name twice makes two rows under two ids with the
      same name and path; both now download the second upload's bytes. */
  lemma UploadSameNameTwice(s: State, filename: string, first: Bytes, second: Bytes)
    requires Valid(s)
    ensures var s1 := Upload(s, filename, first).state;
            var s2 := Upload(s1, filename, second).state;
            s.nextId != s1.nextId &&
            s.nextId in s2.table && s1.nextId in s2.table &&
            s2.table[s.nextId] == s2.table[s1.nextId] == Record(filename, SavePath(filename)) &&
            DownloadFile(s2, s.nextId) == DownloadFile(s2, s1.nextId) == Ok(second)
  {
  }

  /** Deleting an id that has no row is a 404 naming the database and leaves
      the table and the upload folder as they were. */
  lemma DeleteUnknownId(s: State, id: int, locked: set<string>)
    requires Valid(s) && id !in s.table
    ensures Delete(s, id, locked) == Step(s, NotFound(NotInDatabase))
  {
  }

  /** A successful delete removes both the listing entry and the file: the
      id is absent from the listing and no longer downloads. */
  lemma DeleteThenListAndDownload(s: State, id: int, locked: set<string>)
    requires Valid(s)
    ensures var r := Delete(s, id, locked);
            r.reply.Ok? ==>
              (forall i :: 0 <= i < |ListFiles(r.state)| ==> ListFiles(r.state)[i].id != id) &&
              DownloadFile(r.state, id) == NotFound(NotInDatabase) &&
              s.table[id].filepath !in r.state.files
  {
  }

  /** Two uploads under one name share a file, so deleting the first removes
      the file of the second: the second row now downloads as a 404 naming
      the server, and the reconciler removes it. */
  lemma DeleteOrphansSameNameSibling(s: State, filename: string, first: Bytes, second: Bytes)
    requires Valid(s)
    ensures var s1 := Upload(s, filename, first).state;
            var s2 := Upload(s1, filename, second).state;
            var d := Delete(s2, s.nextId, {});
            d.reply == Ok(()) &&
            DownloadFile(d.state, s1.nextId) == NotFound(NotOnServer) &&
            s1.nextId !in Clean(d.state).state.table
  {
  }

  /** The reconciler's second run, with nothing in between, removes nothing
      and changes nothing. */
  lemma {:induction false} CleanIdempotent(s: State)
    requires Valid(s)
    ensures Clean(Clean(s).state) == Step(Clean(s).state, 0)
  {
    var c := Clean(s).state;
    var cc := Clean(c).state;
    forall id ensures id !in Orphans(c) {
      if id in c.table {
        assert c.table[id] == s.table[id];
      }
    }
    assert Orphans(c) == {};
    SameRows(cc.table, c.table);
  }

  /** After the reconciler every row's file exists, so every listed id
      downloads successfully. */
  lemma CleanRestoresDownloads(s: State, id: int)
    requires Valid(s)
    requires id in Clean(s).state.table
    ensures DownloadFile(Clean(s).state, id) == Ok(s.files[s.table[id].filepath])
  {
  }

  /** One request to the service. */
  datatype Op =
    | UploadOp(filename: string, data: Bytes)
    | DeleteOp(id: int, locked: set<string>)
    | CleanOp

  /** The state after one request; the counter never goes down. */
  function Apply(s: State, op: Op): (r: State)
    requires Valid(s)
    ensures Valid(r)
    ensures r.nextId == if op.UploadOp? then s.nextId + 1 else s.nextId
  {
    match op
    case UploadOp(filename, data) => Upload(s, filename, data).state
    case DeleteOp(id, locked) => Delete(s, id, locked).state
    case CleanOp => Clean(s).state
  }

  /** The state after a sequence of requests; the counter never goes down. */
  function Run(s: State, ops: seq<Op>): (r: State)
    requires Valid(s)
    ensures Valid(r) && r.nextId >= s.nextId
    decreases |ops|
  {
    if ops == [] then s else Run(Apply(s, ops[0]), ops[1..])
  }

  /** The ids the uploads among `ops` are given, in the order given. */
  function Issued(s: State, ops: seq<Op>): seq<int>
    requires Valid(s)
    decreases |ops|
  {
    if ops == [] then []
    else
      var rest := Issued(Apply(s, ops[0]), ops[1..]);
      if ops[0].UploadOp? then [s.nextId] + rest else rest
  }

  /** Ids are never reused: along any sequence of requests, deletes and
      reconciliations included, each upload gets a larger id than every
      earlier one, and every id it gets is above every row present at the
      start. */
  lemma {:induction false} IdsNeverReused(s: State, ops: seq<Op>)
    requires Valid(s)
    ensures forall id :: id in Issued(s, ops) ==> s.nextId <= id < Run(s, ops).nextId
    ensures Ascending(Issued(s, ops))
    ensures forall id :: id in Issued(s, ops) ==> id !in s.table
    decreases |ops|
  {
    if ops != [] {
      var s1 := Apply(s, ops[0]);
      IdsNeverReused(s1, ops[1..]);
      var rest := Issued(s1, ops[1..]);
      assert Run(s, ops) == Run(s1, ops[1..]);
      if ops[0].UploadOp? {
        var ids := [s.nextId] + rest;
        assert Issued(s, ops) == ids;
        assert s1.nextId == s.nextId + 1;
        forall i, j | 0 <= i < j < |ids| ensures ids[i] < ids[j] {
          assert ids[j] == rest[j - 1] && rest[j - 1] in rest;
          if i > 0 { assert ids[i] == rest[i - 1]; }
        }
      } else {
        assert Issued(s, ops) == rest;
      }
    }
  }
}
