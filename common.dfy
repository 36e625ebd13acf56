/** Values shared by every part of the service model: optional values, the
    outcome of an opaque library call, bytes, folder entries, uploads,
    exceptions and HTTP responses. */
module Common {

  datatype Option<+T> = None | Some(value: T)

  /** Outcome of a foreign call (an image or PDF codec): a value, or the
      message of the exception it raised. */
  datatype Result<+T> = Ok(value: T) | Err(message: string)

  newtype Byte = x: int | 0 <= x < 256

  type Bytes = seq<Byte>

  /** One file of a folder: its bytes and its modification time in seconds
      since the epoch (what `os.stat(...).st_mtime` reports). */
  datatype Entry = Entry(content: Bytes, mtime: real)

  /** What a streaming writer leaves in a file it has opened: the bytes it
      wrote, and the message of the exception it raised, if any. A failed
      write may still have written a prefix. */
  datatype Written = Written(bytes: Bytes, error: Option<string>)

  /** A flat folder: file name to entry. */
  type Folder = map<string, Entry>

  /** One multipart upload as the framework hands it over: the declared file
      name (empty when the browser sent none) and the bytes of its stream. */
  datatype Upload = Upload(filename: string, data: Bytes)

  /** A decoded raster image: its colour mode ("RGB", "RGBA", "P", ...) and
      its pixel data. */
  datatype Image = Image(mode: string, pixels: Bytes)

  /** The exceptions a handler can raise inside its `try`. `MissingModule`
      is a failing `import`, `MissingField` the key error of a missing
      multipart field, `OsError` a write the file
      system refuses, `CodecError` a failure of an image or PDF library. */
  datatype Exception =
    | MissingModule(name: string)
    | MissingField(field: string)
    | OsError(path: string)
    | CodecError(message: string)

  /** A handler's reply: a file sent back (`send_file`), or the JSON body
      `{"error": str(e)}` with a status code. */
  datatype Response =
    | SendFile(downloadName: string, mimetype: Option<string>, asAttachment: bool, body: Bytes)
    | ErrorJson(status: int, error: Exception)

  /** The status every handler answers with when its `try` catches. */
  const ServerErrorStatus := 500
}
