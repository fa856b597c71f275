/** Reading a blob by its exact name (ReadAsync) and the write-mode check
    WriteAsync makes before it uploads. */
module Writing {
  import opened Strings
  import opened Outcomes
  import opened BlobStore

  /** How a write treats an existing blob. */
  datatype WriteMode = Create | Replace | CreateOrReplace

  /** A write: a correlation id, the target pointer, the bytes of the stream
      and the mode. */
  datatype WriteRequest = WriteRequest(id: String, storagePointer: String, content: Bytes, writeMode: WriteMode)

  /** ReadAsync: the blob's bytes when a blob has exactly the pointer as its
      name; FileNotFound otherwise. */
  function Read(blobs: map<String, Blob>, pointer: String): (r: Result<Bytes>)
    ensures r.Ok? <==> pointer in blobs
    ensures r.Ok? ==> r.value == blobs[pointer].content
    ensures r.Err? ==> r.error == FileNotFound
  {
    if pointer in blobs then Ok(blobs[pointer].content) else Err(FileNotFound)
  }

  /** The check before the upload, given whether a blob has exactly the
      target name: Create refuses an existing blob, Replace refuses a missing
      one, CreateOrReplace never refuses. */
  function WriteCheck(mode: WriteMode, present: bool): (r: Outcome)
    ensures r == Fail(FileAlreadyExists) <==> mode == Create && present
    ensures r == Fail(FileNotFound) <==> mode == Replace && !present
    ensures r.Pass? <==> mode == CreateOrReplace || (mode == Create && !present) || (mode == Replace && present)
  {
    match mode
    case Create => if present then Fail(FileAlreadyExists) else Pass
    case Replace => if !present then Fail(FileNotFound) else Pass
    case CreateOrReplace => Pass
  }
}
