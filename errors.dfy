/**
 * Error kinds of the `cov` library (cov/src/error.rs), as a plain datatype,
 * and the `Result` type every fallible operation returns.
 */
module CovErrors {

  /** The two gcov file kinds: notes (`*.gcno`) and counter data (`*.gcda`). */
  datatype FileType = Gcno | Gcda

  datatype ErrorKind =
    /** An I/O failure; in this model the only one is "not enough bytes left" (`UnexpectedEof`). */
    | UnexpectedEof
    /** A string in the file is not valid UTF-8. */
    | FromUtf8
    | UnknownFileType(magic: bv32)
    | VersionMismatch(expected: bv32, actual: bv32)
    /** The EOF record tag was read. */
    | Eof
    | UnknownTag(tag: bv32)
    | UnsupportedAttr(kind: string, rawFlag: bv32)
    | UnsupportedVersion(version: bv32)
    | MissingFunction(fileChecksum: bv32, ident: bv32)
    | CountsMismatch(kind: string, fileType: FileType, expectedLen: nat, actualLen: nat)
    | RecordWithoutFunction

  /** Whether an error means "end of file" (`At::is_eof`): an unexpected EOF or the EOF record. */
  predicate IsEof(e: ErrorKind)
  {
    e.UnexpectedEof? || e.Eof?
  }

  datatype Result<+T> = Ok(value: T) | Err(error: ErrorKind)
  {
    predicate IsFailure()
    {
      Err?
    }

    function PropagateFailure<U>(): Result<U>
      requires Err?
    {
      Err(error)
    }

    function Extract(): T
      requires Ok?
    {
      value
    }
  }
}
