/** Return codes of the matrix module and a small option type. */
module ErrorCodes {

  /** The return codes the matrix functions can produce (`RC` in the source). */
  datatype ErrorId =
    | NoError        // ERROR_ID_NO
    | Alloc          // ERROR_ID_ALLOC: a buffer could not be obtained
    | FileNotFound   // ERROR_ID_FILE_NOT_FOUND: the file cannot be opened
    | FileEmpty      // ERROR_ID_FILE_EMPTY: zero length, or too few usable lines/columns
    | FileBadLength  // ERROR_ID_FILE_BAD_LENGTH: a row does not have the expected shape
    | Wavelength     // ERROR_ID_WAVELENGTH: no row has its first value in range
    | SplineFailed   // whatever non-zero code the external spline routine returns

  datatype Option<T> = None | Some(value: T)
}
