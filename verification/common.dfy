/**
 * Shared vocabulary of the pharmacy model: optional values, record
 * identities and the request/reply shape of the REST API.
 */
module Common {

  /** A value that may be absent: a missing request field, a missing record. */
  datatype Option<+T> = None | Some(value: T)

  /** Document identities (Mongo ObjectIds) are opaque strings here, so that
      error messages that embed an id can be written out exactly. */
  type Id = string

  /** One HTTP reply of the API: a success code with a JSON body, or an
      error code with the `message` field of the JSON error body. */
  datatype Reply<+T> = Ok(code: int, body: T) | Err(code: int, message: string)

  /** The metadata of one uploaded file, as the browser's `File` object and
      multer's `req.file` both expose it: file name, MIME type, byte size. */
  datatype FileInfo = FileInfo(name: string, mimeType: string, size: int)
}
