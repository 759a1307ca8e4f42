/** Values exchanged by the upload service: file records, list entries and
    the replies of the request handlers. */
module Records {

  /** One byte of an uploaded file. */
  newtype Byte = x: int | 0 <= x < 256

  type Bytes = seq<Byte>

  /** A row of the `files` table, without its id (the id is the table's key). */
  datatype Record = Record(filename: string, filepath: string)

  /** One element of the list handler's reply: `{id, filename}`. */
  datatype Entry = Entry(id: int, filename: string)

  /** The upload handler's reply: `{filename, path}`. */
  datatype Saved = Saved(filename: string, path: string)

  /** The two distinct causes behind a 404 reply. */
  datatype NotFoundCause =
    | NotInDatabase   // "File not found in database"
    | NotOnServer     // "File not found on server"

  /** A handler's outcome: a 200 payload, a 404 with its cause, or a 500. */
  datatype Reply<T> = Ok(value: T) | NotFound(cause: NotFoundCause) | ServerError

  /** The directory every upload is written to. */
  const UploadFolder: string := "uploads"

  /** Where an upload named `filename` is stored: the folder, a slash, and the
      client's name verbatim (no sanitisation). */
  function SavePath(filename: string): (p: string)
    ensures |p| == |UploadFolder| + 1 + |filename|
    ensures p[..|UploadFolder|] == UploadFolder && p[|UploadFolder|] == '/'
    ensures p[|UploadFolder| + 1..] == filename
  {
    UploadFolder + "/" + filename
  }

  /** Two uploads share a storage path exactly when they share a filename. */
  lemma SavePathInjective(a: string, b: string)
    ensures SavePath(a) == SavePath(b) <==> a == b
  {
    if SavePath(a) == SavePath(b) {
      assert a == SavePath(a)[|UploadFolder| + 1..];
    }
  }
}
