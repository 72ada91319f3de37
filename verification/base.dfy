/** Shared vocabulary: identifiers, optional values, HTTP replies, and the
    JavaScript coercions the handlers rely on. */
module Base {

  /** A value that may be `undefined` or `null` on the JavaScript side. */
  datatype Option<+T> = None | Some(value: T)

  /** Every identifier is the string form of a Mongo ObjectId or a socket.io id. */
  type UserId = string
  type SocketId = string
  type MessageId = string
  type ChannelId = string

  /** JavaScript truthiness of a possibly-missing string: `undefined`, `null`
      and the empty string are falsy, every other string is truthy. */
  predicate Truthy(o: Option<string>)
  {
    o.Some? && o.value != ""
  }

  /** The text a template literal produces for a possibly-missing string field:
      a missing field renders as the word `undefined`. */
  function TemplateText(o: Option<string>): string
  {
    if o.Some? then o.value else "undefined"
  }

  /** An Express reply: a status code with either a JSON value or an error message. */
  datatype Reply<+T> = Success(status: int, value: T) | Failure(status: int, message: string)

  /** A multer upload: the client's file name and where the upload was written. */
  datatype UploadedFile = UploadedFile(originalname: string, path: string)

  /** The effects a handler has on the file system, in the order it performs them. */
  datatype FsOp = MakeDir(dir: string) | Rename(from: string, to: string) | Unlink(path: string)
}
