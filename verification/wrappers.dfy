/** Option and Result, and the ways one file can fail.

    ldid aborts the current file by throwing from `_assert`; the batch loop in
    `main` counts the failure and goes on with the next file. Here every such
    abort is an `Err` carrying the reason. */
module Wrappers {

  datatype Option<+T> = None | Some(value: T)

  /** Why processing of one file stopped. */
  datatype Failure =
    | BadMagic            // neither MH_MAGIC nor MH_MAGIC_64 in either byte order
    | BadFileType         // filetype other than MH_EXECUTE, MH_DYLIB or MH_BUNDLE
    | SignatureBeyondSlice // an existing LC_CODE_SIGNATURE's dataoff exceeds the slice
    | SymtabMismatch      // the string table does not end within 16 bytes below the limit
    | MissingSignature    // -S, -s or -e without an LC_CODE_SIGNATURE
    | MissingEncryption   // -D without an LC_ENCRYPTION_INFO
    | CapacityOverflow    // the generated signature does not fit the reserved region
    | ReadOnlyMapping     // a store into a slice mapped without write access

  datatype Result<+T> = Ok(value: T) | Err(error: Failure)
}
