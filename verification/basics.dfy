/** Small value types shared by every module of the model. */
module Basics {

  /** An optional value; `None` plays the role of Go's nil. */
  datatype Option<+T> = None | Some(value: T)

  /** One octet of file content. */
  type Byte = b: int | 0 <= b < 256

  /** The content of a regular file. */
  type Bytes = seq<Byte>
}

/** The failures the filesystem primitives report and the errors the library returns. */
module Errors {

  /** What a filesystem primitive (local or remote) reports when it fails.
      `Other` stands for every cause the model does not tell apart
      (permission denied, disk full, a dropped connection, ...). */
  datatype IoError = NotExist | NotDir | IsDir | Exist | Other(code: nat)

  /** The error values the library hands back to its callers. The four
      transfer errors carry the phase prefix the library puts in front of
      the primitive's message; the others are returned as produced. */
  datatype Error =
    | LocalFileErr(cause: IoError)
    | RemoteFileErr(cause: IoError)
    | CopyErr(cause: IoError)
    | SyncErr(cause: IoError)
    | WalkerNil
    | WalkErr(cause: IoError)
    | DirCollision
    | MkdirFailed(cause: IoError)
}
