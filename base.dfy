/** Shared vocabulary: optional values, results, bytes and the exceptions of the backup script. */
module Base {

  /** A value that may be absent (Python's `None`, or a missing dictionary key). */
  datatype Option<+T> = None | Some(value: T)

  /** The outcome of an operation that either yields a value or raises. */
  datatype Result<+T, +E> = Ok(value: T) | Err(error: E)

  /** The outcome of an operation that yields nothing or raises. */
  datatype Outcome<+E> = Pass | Fail(error: E)

  type byte = bv8

  /** The exception classes the script raises or lets escape; their messages are not modelled. */
  datatype Error =
    | ConfigurationError   // the script's own class: invalid top-level configuration
    | CommandError         // the script's own class: the pre-backup command exited non-zero
    | ValueError           // strptime rejects the date embedded in an archive name
    | FileNotFoundError    // os.listdir or shutil.copy on a missing path
    | NotADirectoryError   // os.listdir on a regular file, or a path below one
    | FileExistsError      // os.makedirs(exist_ok=True) on a path held by a regular file
    | KeyError             // config['input_paths'] is absent
    | IsADirectoryError    // shutil.copy into a directory whose `backup_final.zip` is itself a directory
    | AttributeError       // a folder's `exclude` setting that is neither text nor empty
}
