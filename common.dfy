/** Values shared by every part of the self-update agent. */
module Common {
  /** One byte of a file or of a downloaded body. */
  newtype byte = x: int | 0 <= x < 256

  type Bytes = seq<byte>

  datatype Option<+T> = None | Some(value: T)

  /** The errors the agent's callbacks hand on. */
  datatype Error =
    | StatFailed     // fs.stat failed with a code other than ENOENT
    | NotAFile       // 'target is not a file'
    | ReadFailed     // a read stream or fs.readFile reported an error
    | DownloadError  // downloadFile called back with an error
    | InvalidSha256  // 'invalid sha256 string'

  datatype Result<+T> = Ok(value: T) | Err(error: Error)
}
