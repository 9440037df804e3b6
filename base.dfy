/** Shared vocabulary: paths, file contents and the failure-carrying wrappers. */
module Base {

  /** A normalised path relative to the working directory (or to a snapshot root). */
  type Path = string

  newtype Byte = b: int | 0 <= b < 256

  /** The contents of a file, compared byte for byte. */
  type Bytes = seq<Byte>

  datatype Option<T> = None | Some(value: T)

  datatype Result<T, E> = Ok(value: T) | Err(error: E)

  /** What a command that changes the repository reports. */
  datatype Outcome = Done | Fail(reason: Failure)

  /** The ways a command of the tool can stop without doing its work. */
  datatype Failure =
    | NameRequired       // `version` called with an empty name
    | AlreadyExists      // version name taken and no --force, or commit identifier taken
    | NotFound           // no such version or commit storage
    | NotRegistered      // storage exists but the name is not in the version list (list.remove raises)
    | NothingToPush      // no commit storage to promote
    | CopyFailed         // a copy into a snapshot raised (directory copied as file, destination exists, ...)
    | MalformedMetadata  // version metadata without a `files` field
    | IsADirectory       // a path that should be a file names a directory
    | NotADirectory      // a path runs through a file as if it were a directory
}
