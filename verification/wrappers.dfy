/**
  Failure-carrying values shared by every module of the model, and the error
  kinds rource reports through `anyhow`.
 */
module Wrappers {

  datatype Option<+T> = None | Some(value: T)

  datatype Result<+R, +E> = Success(value: R) | Failure(error: E)

  /** The distinct failures the modelled code can raise. */
  datatype Error =
    | RecordTooLarge        // encoded record does not fit a u16 length prefix
    | WriteFailed           // the spool writer refused bytes
    | InvalidAlias          // an alias is not of the form <GIT_USERNAME>::<GOURCE_USERNAME>
    | ChunkTooSmall         // merge-sort chunk size below the accepted minimum
    | TempDirUnusable       // temporary directory has no existing parent or cannot be created
    | RelativePathUnknown   // repository path is not under the root, or has no parent
    | UnparsableCommit      // author name or delta path is missing or not UTF-8
    | UnparsablePrefix      // repository prefix is not UTF-8
    | ReadDirFailed         // a directory listing could not be read
    | UnreadableName        // a directory name is not UTF-8
    | RepositoryFailed      // reading one repository's history failed
}
