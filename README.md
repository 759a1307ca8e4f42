# codevault uploader, modelled in Dafny

`uploader.py` is a small file-upload service. Clients upload a file. The
service writes it to `uploads/<filename>` and records `(filename, filepath)`
in the SQLite table `files`, under an AUTOINCREMENT id. Clients can list
the rows, download a row's file, and delete a row together with its file. A
maintenance routine, the reconciler, drops the rows whose file has vanished
from the upload folder.

This project models that state machine:

- `records.dfy` (module `Records`) holds the value types. A `Record` is one
  table row. An `Entry` is one `{id, filename}` list item. `Saved` is the
  upload reply `{filename, path}`. `Reply` is the handler outcome: an `Ok`
  payload (200), `NotFound` with its cause (404), or `ServerError` (500).
  The module also defines the storage path `SavePath`.
- `store.dfy` (module `Store`) is the specification. A `State` is the table
  (`map<int, Record>`), the AUTOINCREMENT counter `nextId` and the upload
  folder (`map<string, seq<Byte>>`). It gives one function per handler:
  `Upload`, `Delete`, `ListFiles`, `DownloadFile` and `Clean`. Each
  contract states which rows and which paths change and that nothing else
  does. `Valid` is the AUTOINCREMENT invariant: every row id lies in
  `[1, nextId)`.
- `service.dfy` (module `Service`) is the running service. The class
  `Uploader` keeps the table, the counter and the folder as fields that its
  handlers update step by step, as the Python does. `UploadCode` writes the
  file, then inserts the row. `DeleteFile` checks for the row, removes the
  file, then deletes the row. `CleanOrphanedFiles` first collects the
  orphaned ids in a loop (`FindOrphanedIds`), then deletes them in a second
  loop (`DeleteRows`). Each method is proved to have exactly the effect of its `Store`
  function. The read-only handlers `list_files` and `download_file` are the
  `Store` functions applied to the object's `State()`.
- `properties.dfy` (module `Properties`) proves what holds when handlers run
  one after another. It covers the upload/download round trip, upload then
  list, duplicate uploads, delete effects, reconciler idempotence, and ids
  never being reused along any sequence of requests.

The removal failure of `os.remove` comes from the operating system, so it
cannot be decided inside the model. It is an input: `locked` is the set of
paths whose removal fails.

Two choices where the code leaves room:

- The reconciler's scan loop (uploader.py:120-122) has no guard, and
  `os.path.exists` cannot raise, so the model checks every row.
- `SELECT` without `ORDER BY` fixes no order. The model lists rows in
  ascending id order, which is SQLite's rowid scan order for this table.

Same-name uploads share one file. `Properties.DeleteOrphansSameNameSibling`
proves the consequence: deleting one such row removes the other row's file
too.

## Model

| member | source | states |
|---|---|---|
| `Records.SavePath` | uploader.py:37 | the storage path is the folder `uploads`, a slash, then the client's filename unchanged |
| `Records.SavePathInjective` | uploader.py:37 | two uploads get the same storage path string if and only if they have the same filename |
| `Store.Init` | uploader.py:20-26 | after schema creation the table is empty, the counter starts at 1, and the AUTOINCREMENT invariant holds |
| `Store.IdsBetween` | uploader.py:22 | the scan of ids in a range returns exactly the row ids in that range, each once, in ascending order |
| `Store.RowIds` | uploader.py:116-117 | selecting all ids yields every row id exactly once, ascending, with as many ids as rows |
| `Store.ListFiles` | uploader.py:82-89 | one entry per row: each entry's id is a row and carries that row's filename, every row appears, the count equals the row count, ids ascend |
| `Store.DownloadFile` | uploader.py:98-110 | an absent id gives 404 "not in database"; a row whose path is missing gives 404 "not on server"; otherwise the stored bytes; never a 500 |
| `Store.Upload` | uploader.py:36-47 | the reply is `{filename, "uploads/"+filename}`; exactly one row is added, under the fresh id `nextId`, which no row had; other rows are unchanged; the path now holds the new bytes, even if a file was there; all other paths are unchanged |
| `Store.Delete` | uploader.py:53-75 | 404 exactly when the id has no row; 500 exactly when the row's file exists and cannot be removed; on either error nothing changes; on 200 the row and its file are gone and every other row and path is unchanged |
| `Store.Clean` | uploader.py:112-130 | a row is kept if and only if its file exists; kept rows are unchanged; the folder and the counter are unchanged; the reported count is the number of orphans, which equals the number of rows removed |
| `Store.RemovingOrphans` | uploader.py:124-130 | deleting a list that names every orphaned id once gives exactly the reconciler's state and count |
| `Service.Uploader.constructor` | uploader.py:16-30 | a new service starts in the initial state with the given folder contents |
| `Service.Uploader.UploadCode` | uploader.py:34-47 | the file write followed by the row insert has exactly the effect and reply of `Store.Upload` and keeps the invariant |
| `Service.Uploader.DeleteFile` | uploader.py:49-75 | the check, remove and delete-row sequence, with its early 404 and 500 returns, has exactly the effect and reply of `Store.Delete` |
| `Service.Uploader.FindOrphanedIds` | uploader.py:119-122 | the scan loop collects exactly the scanned ids whose file is missing, each once |
| `Service.Uploader.DeleteRows` | uploader.py:124-125 | deleting the listed ids row by row removes exactly those rows, leaves every other row unchanged, and touches neither the folder nor the counter |
| `Service.Uploader.CleanOrphanedFiles` | uploader.py:112-130 | the scan followed by the row-by-row delete loop has exactly the effect and count of `Store.Clean` |
| `Properties.UploadThenDownload` | uploader.py:36-47 | downloading the id that an upload was given returns the uploaded bytes |
| `Properties.IdsBetweenInsert` | uploader.py:22 | inserting a row at the next id adds that id at the end of the ascending id scan |
| `Properties.EntriesOfAppend` | uploader.py:86-89 | one more scanned row adds its `{id, filename}` entry at the end of the listing |
| `Properties.ListAfterInsert` | uploader.py:82-89 | a row inserted under the next id appears as the last entry of the listing, after the unchanged earlier entries |
| `Properties.UploadThenList` | uploader.py:43 | after an upload the listing is the previous listing plus one entry with the fresh id and the uploaded name |
| `Properties.UploadSameNameTwice` | uploader.py:37-43 | two uploads under one name make two distinct ids with identical rows; both download the second upload's bytes |
| `Properties.DeleteUnknownId` | uploader.py:53-58 | deleting an id with no row gives 404 "not in database" and changes no state |
| `Properties.DeleteThenListAndDownload` | uploader.py:60-75 | after a successful delete the id is not listed, its download is 404 "not in database", and its file is gone |
| `Properties.DeleteOrphansSameNameSibling` | uploader.py:63-65 | deleting one of two same-name uploads removes their shared file; the other row then downloads as 404 "not on server" and the reconciler drops it |
| `Properties.CleanIdempotent` | uploader.py:112-130 | a second reconciler run with no change in between removes zero rows and leaves the state as it was |
| `Properties.CleanRestoresDownloads` | uploader.py:119-122 | after the reconciler, every remaining row downloads its stored bytes |
| `Properties.Apply` | uploader.py:22 | one request keeps the AUTOINCREMENT invariant; the counter goes up by one on an upload and stays put otherwise |
| `Properties.Run` | uploader.py:22 | any sequence of requests keeps the invariant and never lowers the counter |
| `Properties.IdsNeverReused` | uploader.py:22 | across any sequence of uploads, deletes and reconciliations, the issued ids strictly increase and are at least the starting counter, so none equals an earlier row's id, including deleted ones |

## Left out

- Flask setup, routing, `jsonify`, `send_file` streaming and HTTP status numbers (uploader.py:3-8, 33, 78, 91, 110, 133-134). Replies are the `Reply` datatype, where `Ok`, `NotFound` and `ServerError` stand for 200, 404 and 500.
- The reply message texts, including the delete success message, the reconciler's "Removed N ..." sentence and the OS error text in the 500 reply. The model keeps only the not-found cause and the count.
- SQLite connections, cursors and commits, and the start-up `os.makedirs` and `init_db()` side effects (uploader.py:11, 16-30). The start state is `Store.Init`: an empty table with the counter at 1, next to a folder with any given contents.
- Out-of-band changes to the upload folder. The reconciler exists because of them, and every lemma holds for any folder contents. No operation models the external removal itself.
- The form of `upload_code(file)` (uploader.py:34). The model takes a filename and the bytes.
- The bytes that `file.save` actually writes, and its failures. An upload always succeeds in the model.
- Path traversal and filename sanitisation. The name is concatenated verbatim.
- Concurrency, and the non-atomic file write plus row insert. Each handler runs alone and to completion.
- SQLite's 64-bit rowid limit. Ids are unbounded integers, so the database-full error at the maximum id is not modelled.
- The gap between `os.path.exists` and `os.remove` (uploader.py:63-65). The model decides existence and removal in one step.
- Path resolution by the operating system. Paths are compared as strings, so names such as `a`, `./a` and `../uploads/a` are separate files in the model, although the OS resolves them to one file. An upload under one of them does not overwrite the file the model holds under another.
- `Store.DownloadFile`: a failure of `send_file` (uploader.py:110) on a path that exists but cannot be read, such as a file without read permission or a directory, is not modelled. Every stored path is readable, so the model's download never answers 500.
